/**
 * Decoding undoes encoding: `set_bytes` on the bytes of a value, whatever bytes follow them,
 * gives the receiver that value's data, exactly when the receiver has a template for every
 * array element it must create.
 */
module AbiRoundTrip {
  import opened Words
  import opened Pieces
  import opened AbiCodec
  import opened AbiLayout
  import opened AbiGaps

  /**
   * The receiver `r` can take `v`: wherever `v` has a non-empty array, so has the template
   * that will read it. An empty dynamic array offers no template.
   */
  ghost predicate Fits(r: Abi, v: Abi)
    decreases v
  {
    v.AArray? && |v.items| > 0 ==>
      && r.AArray? && |r.items| > 0
      && forall i :: 0 <= i < |v.items| ==> Fits(Template(r.items, i), v.items[i])
  }

  /** No dynamic array anywhere in `r` is empty. */
  ghost predicate NoEmptyList(r: Abi) {
    r.AArray? ==> |r.items| > 0 && forall i :: 0 <= i < |r.items| ==> NoEmptyList(r.items[i])
  }

  /** Same structure and same data; only the `dont_mutate` marks may differ. */
  ghost predicate SameContent(a: Abi, b: Abi) {
    match a
    case A256(w, x, _, y) => b.A256? && b.word == w && b.isAddress == x && b.isBytes == y
    case ADynamic(d) => b == ADynamic(d)
    case AArray(xs, dyn) =>
      && b.AArray? && b.dynamicSize == dyn && |b.items| == |xs|
      && forall i :: 0 <= i < |xs| ==> SameContent(xs[i], b.items[i])
    case AEmpty => b.AEmpty?
  }

  /** Decoding with receiver `r` gave `d`: it succeeds iff `r` fits `v`, and then carries `v`'s data. */
  ghost predicate ReadsBack(d: Option<Abi>, r: Abi, v: Abi) {
    (d.Some? <==> Fits(r, v)) && (d.Some? ==> SameContent(d.value, v))
  }

  // ---- the round trip ----

  /** All results, if every one succeeded. */
  function Collect(ds: seq<Option<Abi>>): Option<seq<Abi>> {
    if ds == [] then Some([])
    else Cons(ds[0], Collect(ds[1..]))
  }

  function Cons(d: Option<Abi>, ds: Option<seq<Abi>>): Option<seq<Abi>> {
    if d.Some? && ds.Some? then Some([d.value] + ds.value) else None
  }

  lemma {:induction false} CollectAll(ds: seq<Option<Abi>>)
    ensures Collect(ds).Some? <==> forall i :: 0 <= i < |ds| ==> ds[i].Some?
    ensures Collect(ds).Some? ==> |Collect(ds).value| == |ds|
    ensures Collect(ds).Some? ==> forall i :: 0 <= i < |ds| ==> ds[i] == Some(Collect(ds).value[i])
  {
    if ds != [] {
      CollectAll(ds[1..]);
    }
  }

  lemma DecodeItemsCons(r: Abi, ts: seq<Abi>, body: Bytes, offset: nat, at: nat, size: nat)
    requires r.AArray? && ts != [] && forall i :: 0 <= i < |ts| ==> ts[i] in r.items
    requires Locate(ts[0], body, offset) == Some((at, size)) && at <= |body|
    ensures DecodeItems(r, ts, body, offset)
         == Cons(Decode(ts[0], body[at..]), DecodeItems(r, ts[1..], body, offset + size))
  {}

  /** With the cursor at `c`, template `x` gives `d`, which is right for `y`, and the cursor moves to `c'`. */
  ghost predicate ReadsItem(x: Abi, body: Bytes, c: nat, c': nat, d: Option<Abi>, y: Abi) {
    var place := Locate(x, body, c);
    && place.Some? && place.value.0 <= |body| && c' == c + place.value.1
    && d == Decode(x, body[place.value.0..]) && ReadsBack(d, x, y)
  }

  lemma {:induction false} NextItem(r: Abi, ts: seq<Abi>, body: Bytes, c: nat, c': nat, d: Option<Abi>, y: Abi,
      ds: seq<Option<Abi>>)
    requires r.AArray? && ts != [] && forall i :: 0 <= i < |ts| ==> ts[i] in r.items
    requires ReadsItem(ts[0], body, c, c', d, y) && DecodeItems(r, ts[1..], body, c') == Collect(ds)
    ensures DecodeItems(r, ts, body, c) == Cons(d, Collect(ds))
  {
    var place := Locate(ts[0], body, c).value;
    DecodeItemsCons(r, ts, body, c, place.0, place.1);
  }

  /** The decoder's loop from item `k` on, its cursor following `cs`. */
  lemma {:induction false} ItemsDecoded(r: Abi, ts: seq<Abi>, ys: seq<Abi>, body: Bytes, cs: seq<nat>,
      ds: seq<Option<Abi>>, k: nat)
    requires r.AArray? && |ts| == |ds| == |ys| && |cs| == |ts| + 1 && k <= |ts|
    requires forall i :: 0 <= i < |ts| ==> ts[i] in r.items
    requires forall i :: 0 <= i < |ts| ==> ReadsItem(ts[i], body, cs[i], cs[i + 1], ds[i], ys[i])
    ensures DecodeItems(r, ts[k..], body, cs[k]) == Collect(ds[k..])
    decreases |ts| - k
  {
    if k < |ts| {
      ItemsDecoded(r, ts, ys, body, cs, ds, k + 1);
      assert ReadsItem(ts[k], body, cs[k], cs[k + 1], ds[k], ys[k]);
      assert ts[k..][0] == ts[k] && ts[k..][1..] == ts[k + 1..] && ds[k..][1..] == ds[k + 1..];
      NextItem(r, ts[k..], body, cs[k], cs[k + 1], ds[k], ys[k], ds[k + 1..]);
    }
  }

  lemma LeafRoundTrip(r: Abi, v: Abi, t: AbiType, b: Bytes)
    requires WellSized(t) && HasType(v, t) && HasType(r, t) && !v.AArray?
    requires Encode(v) <= b && |b| < USIZE
    ensures Decode(r, b).Some? && SameContent(Decode(r, b).value, v)
  {
    match v
    case A256(w, _, _, _) =>
      assert b[..WORD] == Encode(v);
      assert b[WORD - |w|..WORD] == b[..WORD][WORD - |w|..] == w;
    case ADynamic(d) =>
      assert SizeWord(|d|) <= Encode(v);
      SizeWordReadBack(|d|, b);
      assert b[WORD..WORD + |d|] == Encode(v)[WORD..WORD + |d|] == d;
  }

  /** The length word is read back, and the children area follows it. */
  lemma ArrayHeader(v: Abi, t: AbiType, b: Bytes)
    requires WellSized(t) && HasType(v, t) && v.AArray?
    requires Encode(v) <= b && |b| < USIZE
    ensures Base(v) <= |b| && Concat(Area(PartsOf(v))) <= b[Base(v)..]
    ensures v.dynamicSize ==> ReadSize(b) == |v.items|
    ensures |v.items| > 0 ==> b[Base(v)..] != []
  {
    var area := Concat(Area(PartsOf(v)));
    ItemsWithinArea(v, t);
    if v.dynamicSize {
      assert SizeWord(|v.items|) <= Encode(v);
      SizeWordReadBack(|v.items|, b);
    }
    assert At(area, 0, area);
    ChildrenAreaAt(v, 0, area);
    AtPrefix(Encode(v), b, Base(v), area);
    AtDrop(b, Base(v), area);
  }

  lemma ItemsWithinArea(v: Abi, t: AbiType)
    requires WellSized(t) && HasType(v, t) && v.AArray?
    ensures |v.items| <= |Concat(Area(PartsOf(v)))| <= |Encode(v)|
  {
    var ts := MembersOf(v, t);
    PartsOfFit(v, t);
    AreaSize(PartsOf(v), ts);
    RoomsPositive(ts, |ts|);
    assert Rooms(ts)[..|ts|] == Rooms(ts);
  }

  /** The array decodes iff every child does. */
  lemma ArrayOutcome(r: Abi, v: Abi, b: Bytes, ds: seq<Option<Abi>>)
    requires r.AArray? && v.AArray? && r.dynamicSize == v.dynamicSize && |v.items| == |ds| > 0 && |r.items| > 0
    requires if v.dynamicSize then |b| >= WORD && ReadSize(b) == |ds| else |r.items| == |ds|
    requires DecodeItems(r, Resize(r.items, |ds|), b[Base(v)..], 0) == Collect(ds)
    requires forall k :: 0 <= k < |ds| ==> ReadsBack(ds[k], Template(r.items, k), v.items[k])
    ensures ReadsBack(Decode(r, b), r, v)
  {
    CollectAll(ds);
    assert b[0..] == b;
    assert Decode(r, b) == match Collect(ds) case Some(xs) => Some(AArray(xs, r.dynamicSize)) case None => None;
    assert Fits(r, v) <==> forall k :: 0 <= k < |ds| ==> ds[k].Some?;
  }

  /** What decoding item `k` gives, with the cursor where the items before leave it. */
  ghost function ItemResult(r: Abi, v: Abi, t: AbiType, body: Bytes, k: nat): Option<Abi>
    requires r.AArray? && v.AArray? && HasType(v, t) && k < |v.items| && |r.items| > 0
  {
    var place := Locate(Template(r.items, k), body, Cursor(MembersOf(v, t), k));
    if place.Some? && place.value.0 <= |body| then Decode(Template(r.items, k), body[place.value.0..]) else None
  }

  ghost predicate ItemReads(r: Abi, v: Abi, t: AbiType, body: Bytes, k: nat)
    requires r.AArray? && v.AArray? && HasType(v, t) && k < |v.items| && |r.items| > 0
  {
    var ts := MembersOf(v, t);
    ReadsItem(Template(r.items, k), body, Cursor(ts, k), Cursor(ts, k + 1), ItemResult(r, v, t, body, k), v.items[k])
  }

  /** An array reads back when all its items do. */
  lemma ArrayFromItems(r: Abi, v: Abi, t: AbiType, b: Bytes)
    requires r.AArray? && v.AArray? && HasType(v, t) && HasType(r, t) && |v.items| > 0 && |r.items| > 0
    requires if v.dynamicSize then |b| >= WORD && ReadSize(b) == |v.items| else true
    requires forall k :: 0 <= k < |v.items| ==> ItemReads(r, v, t, b[Base(v)..], k)
    ensures ReadsBack(Decode(r, b), r, v)
  {
    var ts, body := Resize(r.items, |v.items|), b[Base(v)..];
    var ds := ItemResults(r, v, t, body);
    ItemsAsRead(r, v, t, body, ts, ds);
    ArrayOutcome(r, v, b, ds);
  }

  ghost function ItemResults(r: Abi, v: Abi, t: AbiType, body: Bytes): (ds: seq<Option<Abi>>)
    requires r.AArray? && v.AArray? && HasType(v, t) && |r.items| > 0
    ensures |ds| == |v.items| && forall k :: 0 <= k < |ds| ==> ds[k] == ItemResult(r, v, t, body, k)
  {
    seq(|v.items|, k requires 0 <= k < |v.items| => ItemResult(r, v, t, body, k))
  }

  function Cursors(us: seq<AbiType>): (cs: seq<nat>)
    ensures |cs| == |us| + 1 && forall k :: 0 <= k <= |us| ==> cs[k] == Cursor(us, k)
  {
    seq(|us| + 1, k requires 0 <= k < |us| + 1 => Cursor(us, k))
  }

  lemma ItemsAsRead(r: Abi, v: Abi, t: AbiType, body: Bytes, ts: seq<Abi>, ds: seq<Option<Abi>>)
    requires r.AArray? && v.AArray? && HasType(v, t) && |r.items| > 0 && |ts| == |ds| == |v.items|
    requires forall k :: 0 <= k < |ts| ==> ts[k] == Template(r.items, k) && ds[k] == ItemResult(r, v, t, body, k)
    requires forall k :: 0 <= k < |ts| ==> ItemReads(r, v, t, body, k)
    ensures forall i :: 0 <= i < |ts| ==> ts[i] in r.items
    ensures forall k :: 0 <= k < |ts| ==> ReadsBack(ds[k], ts[k], v.items[k])
    ensures DecodeItems(r, ts, body, 0) == Collect(ds)
  {
    var cs := Cursors(MembersOf(v, t));
    forall k | 0 <= k < |ts|
      ensures ReadsItem(ts[k], body, cs[k], cs[k + 1], ds[k], v.items[k]) && ReadsBack(ds[k], ts[k], v.items[k])
    {
      assert ItemReads(r, v, t, body, k);
    }
    ItemsDecoded(r, ts, v.items, body, cs, ds, 0);
    assert ts[0..] == ts && ds[0..] == ds && cs[0] == 0;
  }

  /** Item `k` of `v`, read with its template. */
  lemma ItemRoundTrip(r: Abi, v: Abi, t: AbiType, body: Bytes, k: nat)
    requires r.AArray? && v.AArray? && k < |v.items| && |r.items| > 0
    requires WellSized(t) && Sane(t) && HasType(v, t) && HasType(r, t)
    requires |body| < USIZE && (Carries(t) ==> Concat(Area(PartsOf(v))) <= body)
    ensures ItemReads(r, v, t, body, k)
    decreases v, 0
  {
    var x, ps, ts := Template(r.items, k), PartsOf(v), MembersOf(v, t);
    PartsOfFit(v, t);
    SaneLevel(v, t);
    SumPrefix(Moves(ts), k);
    assert HasType(x, ts[k]) && WellSized(ts[k]);
    if Carries(ts[k]) {
      LocateItem(ps, ts, x, v.items[k], body, k);
      Reads(x, v.items[k], ts[k], body[ChildPos(ps, k)..]);
    } else {
      LocateHollow(ts[k], x, body, Cursor(ts, k));
      CursorOnBody(v, t, body, k);
      Reads(x, v.items[k], ts[k], body[Cursor(ts, k)..]);
    }
  }

  lemma CursorOnBody(v: Abi, t: AbiType, body: Bytes, k: nat)
    requires v.AArray? && WellSized(t) && HasType(v, t) && k < |v.items|
    requires Carries(t) ==> Concat(Area(PartsOf(v))) <= body
    ensures Cursor(MembersOf(v, t), k) <= |body|
  {
    var ts := MembersOf(v, t);
    if Carries(t) {
      PartsOfFit(v, t);
      CursorInside(PartsOf(v), ts, k);
    } else {
      forall i | 0 <= i < |ts| ensures Moves(ts)[i] == 0 {
        TypeSizes(ts[i]);
      }
      SumZero(Moves(ts)[..k]);
    }
  }

  /** Decoding gives the value's data, from its encoding or, without any data, from any bytes. */
  lemma {:induction false} Reads(r: Abi, v: Abi, t: AbiType, b: Bytes)
    requires WellSized(t) && Sane(t) && HasType(v, t) && HasType(r, t)
    requires |b| < USIZE && (Carries(t) ==> Encode(v) <= b)
    ensures ReadsBack(Decode(r, b), r, v)
    decreases v
  {
    if !v.AArray? {
      LeafRoundTrip(r, v, t, b);
    } else {
      if Carries(t) {
        ArrayHeader(v, t, b);
      }
      if |v.items| > 0 && |r.items| > 0 {
        forall k | 0 <= k < |v.items| ensures ItemReads(r, v, t, b[Base(v)..], k) {
          ItemRoundTrip(r, v, t, b[Base(v)..], k);
        }
        ArrayFromItems(r, v, t, b);
      }
    }
  }

  /**
   * For every sane type, value, receiver and trailing bytes: decoding succeeds, with the value's
   * data, iff the receiver fits.
   */
  lemma RoundTrip(r: Abi, v: Abi, t: AbiType, b: Bytes)
    requires WellSized(t) && Sane(t) && HasType(v, t) && HasType(r, t)
    requires Encode(v) <= b && |b| < USIZE
    ensures ReadsBack(Decode(r, b), r, v)
  {
    Reads(r, v, t, b);
  }

  /** A receiver with no empty dynamic array takes every value of its type. */
  lemma {:induction false} NoEmptyListFits(r: Abi, v: Abi, t: AbiType)
    requires Typed(v, t) && Typed(r, t) && NoEmptyList(r)
    ensures Fits(r, v)
    decreases v
  {
    if v.AArray? {
      forall i | 0 <= i < |v.items| ensures Fits(Template(r.items, i), v.items[i]) {
        var j := if i < |r.items| then i else 0;
        MemberTyped(v, t, i);
        MemberTyped(r, t, j);
        NoEmptyListFits(r.items[j], v.items[i], MemberType(t, i));
      }
    }
  }

  lemma {:induction false} FitsItself(v: Abi)
    ensures Fits(v, v)
  {
    if v.AArray? {
      forall i | 0 <= i < |v.items| ensures Fits(Template(v.items, i), v.items[i]) {
        FitsItself(v.items[i]);
      }
    }
  }

  /** Re-encoding and the type map see only the content. */
  lemma {:induction false} SameContentSameBytes(a: Abi, b: Abi)
    requires SameContent(a, b)
    ensures Encode(a) == Encode(b) && TypesOf(a) == TypesOf(b) && IsStatic(a) == IsStatic(b)
  {
    if a.AArray? {
      forall i | 0 <= i < |a.items|
        ensures Encode(a.items[i]) == Encode(b.items[i])
        ensures TypesOf(a.items[i]) == TypesOf(b.items[i])
        ensures IsStatic(a.items[i]) == IsStatic(b.items[i])
      {
        SameContentSameBytes(a.items[i], b.items[i]);
      }
      assert PartsOf(a) == PartsOf(b);
    }
  }

  lemma {:induction false} SameContentSameType(a: Abi, b: Abi, t: AbiType)
    requires SameContent(a, b) && HasType(b, t)
    ensures HasType(a, t)
    decreases a
  {
    if a.AArray? {
      forall i | 0 <= i < |a.items| ensures HasType(a.items[i], if a.dynamicSize then t.element else t.members[i]) {
        SameContentSameType(a.items[i], b.items[i], if a.dynamicSize then t.element else t.members[i]);
      }
    }
  }

  /**
   * What the GPU stage asserts after writing a transaction back: decoding the calldata of a
   * value into a fitting receiver of its type re-encodes to the same bytes and word types.
   */
  lemma DecodeThenEncode(r: Abi, v: Abi, t: AbiType, trailing: Bytes)
    requires WellSized(t) && Sane(t) && HasType(v, t) && HasType(r, t) && Fits(r, v)
    requires |Encode(v) + trailing| < USIZE
    ensures var d := Decode(r, Encode(v) + trailing);
            && d.Some? && SameContent(d.value, v) && HasType(d.value, t)
            && Encode(d.value) == Encode(v) && TypesOf(d.value) == TypesOf(v)
  {
    RoundTrip(r, v, t, Encode(v) + trailing);
    SameContentSameBytes(Decode(r, Encode(v) + trailing).value, v);
    SameContentSameType(Decode(r, Encode(v) + trailing).value, v, t);
  }

  /** An emptied `uint256[]` cannot take a one-element array back: `set_bytes` panics. */
  lemma EmptiedListLosesItsTemplate(w: Abi)
    requires w.A256? && |w.word| == WORD && !w.isAddress
    ensures Decode(AArray([], true), Encode(AArray([w], true))).None?
  {
    var v, t := AArray([w], true), TList(TWord(WORD, false, w.isBytes));
    var r := AArray([], true);
    assert HasType(w, t.element) && GoodType(t.element) && GoodType(t);
    assert HasType(v, t) && HasType(r, t);
    GoodIsSane(t);
    PartsOfFit(v, t);
    AreaSize(PartsOf(v), MembersOf(v, t));
    NoTails(PartsOf(v), 1);
    assert Rooms(MembersOf(v, t)) == [WORD];
    RoundTrip(r, v, t, Encode(v));
  }

  /** A zero-length fixed array, then a word: the smallest type with a harmful gap. */
  function GapThenWord(w: WordData): Abi {
    AArray([AArray([], false), A256(w, false, false, false)], false)
  }

  lemma GapThenWordBytes(w: WordData)
    requires |w| == WORD
    ensures Encode(GapThenWord(w)) == SizeWord(WORD) + w
  {
    var v := GapThenWord(w);
    var ps, gap := PartsOf(v), v.items[0];
    assert PartsOf(gap) == [] && Area(PartsOf(gap)) == [] && Encode(gap) == [] && Encode(v.items[1]) == w;
    assert IsStatic(gap) && IsStatic(v.items[1]);
    assert ps[0].isStatic && ps[0].enc == [] && ps[1].isStatic && ps[1].enc == w;
    assert ps[..1][..0] == [] && HeadSize(ps[..1]) == 0 && HeadSize(ps) == WORD;
    assert TailPieces(ps)[..0] == [] && TailOffset(ps, 0) == WORD;
    assert Area(ps) == [SizeWord(WORD), w, [], []];
    assert [SizeWord(WORD), w, [], []][1..] == [w, [], []];
    assert [w, [], []][1..] == [[], []];
    var none: Bytes := [];
    assert [none, none][1..] == [none] && [none][1..] == [];
    assert Concat([none]) == none + [] && Concat([none, none]) == none + Concat([none]);
    assert Concat([w, [], []]) == w;
  }

  lemma GapThenWordDecoded(w: WordData, b: Bytes)
    requires |w| == WORD <= |b|
    ensures Decode(GapThenWord(w), b) == Some(GapThenWord(b[..WORD]))
  {
    var v := GapThenWord(w);
    var gap, word := v.items[0], v.items[1];
    var ts := Resize(v.items, 2);
    assert ts == [gap, word] && ts[1..] == [word] && ts[1..][1..] == [] && b[0..] == b;
    DecodeItemsCons(v, ts, b, 0, 0, 0);
    DecodeItemsCons(v, ts[1..], b, 0, 0, WORD);
    assert DecodeItems(v, ts, b, 0) == Some([gap] + ([A256(b[0..WORD], false, false, false)] + []));
    assert b[0..WORD] == b[..WORD];
    assert [gap] + ([A256(b[0..WORD], false, false, false)] + []) == GapThenWord(b[..WORD]).items;
  }

  /**
   * After a zero-length fixed array the encoder emits an offset word that `head_size` does not
   * count, so the word that follows it is decoded from the wrong place.
   */
  lemma ZeroLengthArrayBreaksRoundTrip(w: WordData)
    requires |w| == WORD
    ensures Decode(GapThenWord(w), Encode(GapThenWord(w))) == Some(GapThenWord(SizeWord(WORD)))
  {
    GapThenWordBytes(w);
    GapThenWordDecoded(w, Encode(GapThenWord(w)));
    assert (SizeWord(WORD) + w)[..WORD] == SizeWord(WORD);
  }
}
