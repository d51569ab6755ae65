/**
 * Zero-length fixed arrays. Such a gap gets a head slot although it has no bytes, the decoder's
 * cursor does not pass that slot, and `head_size` does not count it.
 */
module AbiGaps {
  import opened Words
  import opened Pieces
  import opened AbiCodec
  import opened AbiLayout

  /** Words of 1 to 32 bytes and addresses of 20; arrays of any length. */
  ghost predicate WellSized(t: AbiType) {
    match t
    case TWord(n, a, _) => 1 <= n <= WORD && (a ==> n == ADDRESS_BYTES)
    case TDynamic => true
    case TList(e) => WellSized(e)
    case TTuple(ts) => forall i :: 0 <= i < |ts| ==> WellSized(ts[i])
  }

  predicate IsStaticType(t: AbiType) {
    match t
    case TWord(_, _, _) => true
    case TTuple(ts) => forall i :: 0 <= i < |ts| ==> IsStaticType(ts[i])
    case _ => false
  }

  predicate Gap(t: AbiType) { t.TTuple? && |t.members| == 0 }

  /** Values of the type differ in some word, byte string or length. */
  predicate Carries(t: AbiType) {
    t.TTuple? ==> exists i :: 0 <= i < |t.members| && Carries(t.members[i])
  }

  /** A static type with a gap in it: its head slot is longer than what the cursor passes. */
  predicate Drifts(t: AbiType) {
    t.TTuple? && IsStaticType(t) && (Gap(t) || exists i :: 0 <= i < |t.members| && Drifts(t.members[i]))
  }

  /** The bytes of the head slot. */
  function Room(t: AbiType): nat {
    if !t.TTuple? || Gap(t) || !IsStaticType(t) then WORD
    else Sum(seq(|t.members|, i requires 0 <= i < |t.members| => Room(t.members[i])))
  }

  /** How far the decoder's cursor moves. */
  function Move(t: AbiType): nat {
    if !t.TTuple? || !IsStaticType(t) then WORD
    else Sum(seq(|t.members|, i requires 0 <= i < |t.members| => Move(t.members[i])))
  }

  function Rooms(ts: seq<AbiType>): (r: seq<nat>)
    ensures |r| == |ts| && forall i :: 0 <= i < |ts| ==> r[i] == Room(ts[i])
  {
    seq(|ts|, i requires 0 <= i < |ts| => Room(ts[i]))
  }

  function Moves(ts: seq<AbiType>): (r: seq<nat>)
    ensures |r| == |ts| && forall i :: 0 <= i < |ts| ==> r[i] == Move(ts[i])
  {
    seq(|ts|, i requires 0 <= i < |ts| => Move(ts[i]))
  }

  /** Members side by side: nothing that carries data follows a drift, and no gap is beside a non-static member. */
  ghost predicate Level(ts: seq<AbiType>) {
    && (forall i, j :: 0 <= i < j < |ts| && Drifts(ts[i]) ==> !Carries(ts[j]))
    && (forall i, j :: 0 <= i < |ts| && 0 <= j < |ts| && !IsStaticType(ts[i]) ==> !Gap(ts[j]))
  }

  /** The types whose gaps do no harm. */
  ghost predicate Sane(t: AbiType) {
    match t
    case TList(e) => Sane(e) && !(Drifts(e) && Carries(e))
    case TTuple(ts) => Level(ts) && forall i :: 0 <= i < |ts| ==> Sane(ts[i])
    case _ => true
  }

  // ---- sums ----

  lemma {:induction false} SumSnoc(xs: seq<nat>, x: nat)
    ensures Sum(xs + [x]) == Sum(xs) + x
  {
    if xs != [] {
      SumSnoc(xs[1..], x);
      assert (xs + [x])[1..] == xs[1..] + [x];
    }
  }

  lemma {:induction false} SumPrefix(xs: seq<nat>, k: nat)
    requires k < |xs|
    ensures Sum(xs[..k + 1]) == Sum(xs[..k]) + xs[k]
  {
    assert xs[..k + 1] == xs[..k] + [xs[k]];
    SumSnoc(xs[..k], xs[k]);
  }

  /** Prefix sums of two lists, one below the other; equal exactly if the lists are. */
  lemma {:induction false} SumsCompare(xs: seq<nat>, ys: seq<nat>, k: nat)
    requires |xs| == |ys| && k <= |xs| && forall i :: 0 <= i < |xs| ==> xs[i] <= ys[i]
    ensures Sum(xs[..k]) <= Sum(ys[..k])
    ensures Sum(xs[..k]) == Sum(ys[..k]) <==> forall i :: 0 <= i < k ==> xs[i] == ys[i]
  {
    if k > 0 {
      SumsCompare(xs, ys, k - 1);
      SumPrefix(xs, k - 1);
      SumPrefix(ys, k - 1);
    }
  }

  lemma {:induction false} SumAligned(xs: seq<nat>, k: nat)
    requires k <= |xs| && forall i :: 0 <= i < |xs| ==> xs[i] % WORD == 0
    ensures Sum(xs[..k]) % WORD == 0
  {
    if k > 0 {
      SumAligned(xs, k - 1);
      SumPrefix(xs, k - 1);
      AddAligned(Sum(xs[..k - 1]), xs[k - 1]);
    }
  }

  lemma AddAligned(a: nat, b: nat)
    requires a % WORD == 0 && b % WORD == 0
    ensures (a + b) % WORD == 0
  {}

  lemma {:induction false} SumGrows(xs: seq<nat>, j: nat, k: nat)
    requires j <= k <= |xs|
    ensures Sum(xs[..j]) <= Sum(xs[..k])
  {
    if j < k {
      SumGrows(xs, j, k - 1);
      SumPrefix(xs, k - 1);
    }
  }

  lemma {:induction false} SumZero(xs: seq<nat>)
    ensures Sum(xs) == 0 <==> forall i :: 0 <= i < |xs| ==> xs[i] == 0
  {
    if xs != [] {
      SumZero(xs[1..]);
      if Sum(xs) == 0 {
        forall i | 0 <= i < |xs| ensures xs[i] == 0 {
          if i > 0 {
            assert xs[1..][i - 1] == xs[i];
          }
        }
      }
    }
  }

  lemma {:induction false} StartOfSum<T>(pieces: seq<seq<T>>, sizes: seq<nat>, k: nat)
    requires |pieces| == |sizes| && k <= |pieces| && forall i :: 0 <= i < |pieces| ==> |pieces[i]| == sizes[i]
    ensures StartOf(pieces, k) == Sum(sizes[..k])
  {
    if k > 0 {
      StartOfSum(pieces, sizes, k - 1);
      ConcatSplit(pieces, k - 1);
      SumPrefix(sizes, k - 1);
    }
  }

  // ---- room and movement of types ----

  /** The cursor falls behind exactly on types that drift, and stays put exactly on types without data. */
  lemma {:induction false} TypeSizes(t: AbiType)
    ensures Room(t) % WORD == 0 && Move(t) % WORD == 0 && Move(t) <= Room(t) && Room(t) >= WORD
    ensures Move(t) == Room(t) <==> !Drifts(t)
    ensures Move(t) == 0 <==> !Carries(t)
    ensures !IsStaticType(t) ==> Carries(t) && !Drifts(t)
  {
    if t.TTuple? {
      var ts := t.members;
      forall i | 0 <= i < |ts|
        ensures Rooms(ts)[i] % WORD == 0 && Moves(ts)[i] % WORD == 0 && Moves(ts)[i] <= Rooms(ts)[i]
                && Rooms(ts)[i] >= WORD
        ensures Moves(ts)[i] == Rooms(ts)[i] <==> !Drifts(ts[i])
        ensures Moves(ts)[i] == 0 <==> !Carries(ts[i])
        ensures !IsStaticType(ts[i]) ==> Carries(ts[i]) && !Drifts(ts[i])
      {
        TypeSizes(ts[i]);
      }
      TupleSizes(t);
    }
  }

  lemma {:induction false} TupleSizes(t: AbiType)
    requires t.TTuple?
    requires forall i :: 0 <= i < |t.members| ==>
               && Rooms(t.members)[i] % WORD == 0 && Moves(t.members)[i] % WORD == 0
               && Moves(t.members)[i] <= Rooms(t.members)[i] && Rooms(t.members)[i] >= WORD
               && (Moves(t.members)[i] == Rooms(t.members)[i] <==> !Drifts(t.members[i]))
               && (Moves(t.members)[i] == 0 <==> !Carries(t.members[i]))
               && (!IsStaticType(t.members[i]) ==> Carries(t.members[i]) && !Drifts(t.members[i]))
    ensures Room(t) % WORD == 0 && Move(t) % WORD == 0 && Move(t) <= Room(t) && Room(t) >= WORD
    ensures Move(t) == Room(t) <==> !Drifts(t)
    ensures Move(t) == 0 <==> !Carries(t)
    ensures !IsStaticType(t) ==> Carries(t) && !Drifts(t)
  {
    var ts := t.members;
    var rs, ms := Rooms(ts), Moves(ts);
    if IsStaticType(t) && !Gap(t) {
      assert Room(t) == Sum(rs) && Move(t) == Sum(ms);
      assert rs[..|ts|] == rs && ms[..|ts|] == ms;
      SumsCompare(ms, rs, |ts|);
      SumAligned(rs, |ts|);
      SumAligned(ms, |ts|);
      SumZero(ms);
      SumGrows(rs, 1, |ts|);
      SumPrefix(rs, 0);
    }
  }

  // ---- the layout of values ----

  /** What a part of type `u` tells the encoder. */
  ghost predicate PartOf(p: Part, u: AbiType) {
    && p.isStatic == IsStaticType(u)
    && (p.isStatic ==> (|p.enc| == 0 <==> Gap(u)) && Room(u) == if |p.enc| == 0 then WORD else |p.enc|)
    && (!p.isStatic ==> |p.enc| >= WORD)
  }

  ghost predicate PartsFit(ps: seq<Part>, ts: seq<AbiType>) {
    |ps| == |ts| && forall i :: 0 <= i < |ps| ==> PartOf(ps[i], ts[i])
  }

  /** The types of an array's items. */
  function MembersOf(v: Abi, t: AbiType): (ts: seq<AbiType>)
    requires v.AArray? && HasType(v, t)
    ensures |ts| == |v.items| && forall i :: 0 <= i < |ts| ==> ts[i] == MemberType(t, i) && HasType(v.items[i], ts[i])
  {
    seq(|v.items|, i requires 0 <= i < |v.items| => MemberType(t, i))
  }

  lemma {:induction false} HeadStart(ps: seq<Part>, ts: seq<AbiType>, k: nat)
    requires PartsFit(ps, ts) && k <= |ps|
    ensures HeadPos(ps, k) == Sum(Rooms(ts)[..k])
  {
    var hs := HeadPieces(ps);
    forall i | 0 <= i < |hs| ensures |hs[i]| == Rooms(ts)[i] {
      assert PartOf(ps[i], ts[i]);
      TypeSizes(ts[i]);
    }
    StartOfSum(hs, Rooms(ts), k);
    StartOfPrefix(hs, TailPieces(ps), k);
  }

  lemma {:induction false} NoTails(ps: seq<Part>, k: nat)
    requires k <= |ps| && forall i :: 0 <= i < k ==> ps[i].isStatic
    ensures StartOf(TailPieces(ps), k) == 0
  {
    if k > 0 {
      NoTails(ps, k - 1);
      ConcatSplit(TailPieces(ps), k - 1);
    }
  }

  /** The children area: all head slots, then the tails. */
  lemma {:induction false} AreaSize(ps: seq<Part>, ts: seq<AbiType>)
    requires PartsFit(ps, ts)
    ensures |Concat(Area(ps))| == Sum(Rooms(ts)) + StartOf(TailPieces(ps), |ps|)
    ensures TailPos(ps, 0) == Sum(Rooms(ts))
  {
    HeadStart(ps, ts, |ps|);
    assert Rooms(ts)[..|ps|] == Rooms(ts);
    ConcatAppend(HeadPieces(ps), TailPieces(ps));
    StartOfEnd(HeadPieces(ps));
    StartOfEnd(TailPieces(ps));
    StartOfPrefix(HeadPieces(ps), TailPieces(ps), |ps|);
  }

  lemma RoomsBounds(ts: seq<AbiType>, k: nat)
    requires k <= |ts|
    ensures Sum(Rooms(ts)[..k]) % WORD == 0 && Sum(Moves(ts)[..k]) % WORD == 0
    ensures Sum(Moves(ts)[..k]) <= Sum(Rooms(ts)[..k])
    ensures Sum(Moves(ts)[..k]) == Sum(Rooms(ts)[..k]) <==> forall i :: 0 <= i < k ==> !Drifts(ts[i])
  {
    var rs, ms := Rooms(ts), Moves(ts);
    forall i | 0 <= i < |ts|
      ensures ms[i] <= rs[i] && rs[i] % WORD == 0 && ms[i] % WORD == 0 && (ms[i] == rs[i] <==> !Drifts(ts[i]))
    {
      TypeSizes(ts[i]);
    }
    SumAligned(rs, k);
    SumAligned(ms, k);
    SumsCompare(ms, rs, k);
  }

  lemma {:induction false} RoomsPositive(ts: seq<AbiType>, k: nat)
    requires k <= |ts|
    ensures WORD * k <= Sum(Rooms(ts)[..k])
  {
    if k > 0 {
      RoomsPositive(ts, k - 1);
      SumPrefix(Rooms(ts), k - 1);
      TypeSizes(ts[k - 1]);
    }
  }

  /** Sizes depend on the type: what `is_static`, `get_size` and the encoder make of a value. */
  lemma {:induction false} Geometry(v: Abi, t: AbiType)
    requires WellSized(t) && HasType(v, t)
    ensures PartOf(Part(IsStatic(v), Encode(v), TypesOf(v)), t)
    ensures IsStatic(v) ==> SizeOf(v) == Move(t)
    decreases v
  {
    if v.AArray? {
      var ps, ts := PartsOf(v), MembersOf(v, t);
      forall i | 0 <= i < |ps|
        ensures PartOf(ps[i], ts[i]) && (IsStatic(v.items[i]) ==> SizeOf(v.items[i]) == Move(ts[i]))
      {
        Geometry(v.items[i], ts[i]);
      }
      ArrayGeometry(v, t);
    }
  }

  lemma {:induction false} ArrayGeometry(v: Abi, t: AbiType)
    requires v.AArray? && HasType(v, t) && PartsFit(PartsOf(v), MembersOf(v, t))
    requires forall i :: 0 <= i < |v.items| && IsStatic(v.items[i]) ==> SizeOf(v.items[i]) == Move(MembersOf(v, t)[i])
    ensures PartOf(Part(IsStatic(v), Encode(v), TypesOf(v)), t)
    ensures IsStatic(v) ==> SizeOf(v) == Move(t)
  {
    if IsStatic(v) {
      StaticParts(v, t);
      StaticTuple(v, t);
    } else {
      NonStaticArray(v, t);
    }
  }

  lemma NonStaticArray(v: Abi, t: AbiType)
    requires v.AArray? && !IsStatic(v) && HasType(v, t) && PartsFit(PartsOf(v), MembersOf(v, t))
    ensures PartOf(Part(IsStatic(v), Encode(v), TypesOf(v)), t)
  {
    var ts := MembersOf(v, t);
    AreaSize(PartsOf(v), ts);
    if !v.dynamicSize {
      StaticParts(v, t);
      RoomsPositive(ts, |ts|);
      assert Rooms(ts)[..|ts|] == Rooms(ts);
    }
  }

  lemma StaticParts(v: Abi, t: AbiType)
    requires v.AArray? && !v.dynamicSize && HasType(v, t) && PartsFit(PartsOf(v), MembersOf(v, t))
    ensures MembersOf(v, t) == t.members && IsStatic(v) == IsStaticType(t)
    ensures forall i :: 0 <= i < |v.items| ==>
            PartsOf(v)[i].isStatic == IsStatic(v.items[i]) == IsStaticType(t.members[i])
  {
    var ps, ts := PartsOf(v), MembersOf(v, t);
    assert ts == t.members;
    assert forall i :: 0 <= i < |ps| ==> PartOf(ps[i], ts[i]) && ps[i].isStatic == IsStatic(v.items[i]);
  }

  lemma StaticTuple(v: Abi, t: AbiType)
    requires v.AArray? && !v.dynamicSize && IsStatic(v) && HasType(v, t) && PartsFit(PartsOf(v), MembersOf(v, t))
    requires forall i :: 0 <= i < |v.items| ==> SizeOf(v.items[i]) == Move(MembersOf(v, t)[i])
    ensures PartOf(Part(IsStatic(v), Encode(v), TypesOf(v)), t) && SizeOf(v) == Move(t)
  {
    var ps, ts := PartsOf(v), t.members;
    StaticParts(v, t);
    AreaSize(ps, ts);
    NoTails(ps, |ps|);
    assert seq(|v.items|, i requires 0 <= i < |v.items| => SizeOf(v.items[i])) == Moves(ts);
    assert Moves(ts) == seq(|ts|, i requires 0 <= i < |ts| => Move(ts[i]));
    assert Rooms(ts) == seq(|ts|, i requires 0 <= i < |ts| => Room(ts[i]));
    RoomsPositive(ts, |ts|);
    assert Rooms(ts)[..|ts|] == Rooms(ts);
  }

  /** The items of an array fit their types. */
  lemma PartsOfFit(v: Abi, t: AbiType)
    requires WellSized(t) && v.AArray? && HasType(v, t)
    ensures PartsFit(PartsOf(v), MembersOf(v, t))
  {
    forall i | 0 <= i < |v.items| ensures PartOf(PartsOf(v)[i], MembersOf(v, t)[i]) {
      Geometry(v.items[i], MembersOf(v, t)[i]);
    }
  }

  /** `head_size` forgets the gaps. */
  lemma {:induction false} HeadSizeWithoutGaps(ps: seq<Part>, ts: seq<AbiType>, k: nat)
    requires PartsFit(ps, ts) && k <= |ps|
    ensures HeadSize(ps[..k]) <= Sum(Rooms(ts)[..k])
    ensures HeadSize(ps[..k]) == Sum(Rooms(ts)[..k]) <==> forall i :: 0 <= i < k ==> !Gap(ts[i])
  {
    if k > 0 {
      HeadSizeWithoutGaps(ps, ts, k - 1);
      SumPrefix(Rooms(ts), k - 1);
      assert ps[..k][..k - 1] == ps[..k - 1];
      HeadCountOf(ps[k - 1], ts[k - 1]);
    }
  }

  lemma HeadSizeOfAll(ps: seq<Part>, ts: seq<AbiType>)
    requires PartsFit(ps, ts)
    ensures HeadSize(ps) <= Sum(Rooms(ts))
    ensures HeadSize(ps) == Sum(Rooms(ts)) <==> forall i :: 0 <= i < |ts| ==> !Gap(ts[i])
  {
    HeadSizeWithoutGaps(ps, ts, |ps|);
    assert ps[..|ps|] == ps && Rooms(ts)[..|ts|] == Rooms(ts);
  }

  lemma HeadCountOf(p: Part, u: AbiType)
    requires PartOf(p, u)
    ensures HeadCount(p) == if Gap(u) then 0 else Room(u)
    ensures Room(u) >= WORD
  {
    TypeSizes(u);
  }

  lemma TailPosIs(ps: seq<Part>, ts: seq<AbiType>, k: nat)
    requires PartsFit(ps, ts) && k <= |ps|
    ensures TailPos(ps, k) == Sum(Rooms(ts)) + StartOf(TailPieces(ps), k)
  {
    AreaSize(ps, ts);
    StartOfAppend(HeadPieces(ps), TailPieces(ps), k);
    StartOfAppend(HeadPieces(ps), TailPieces(ps), 0);
  }

  /** An offset word holds the start of its child, past the length word if any, if and only if no sibling is a gap. */
  lemma OffsetExactIff(v: Abi, t: AbiType, i: nat)
    requires v.AArray? && WellSized(t) && HasType(v, t) && i < |v.items| && !IsStatic(v.items[i]) && |Encode(v)| < USIZE
    ensures WORD * HeadWord(v, i) + WORD <= |Encode(v)|
    ensures Base(v) + ReadSize(Encode(v)[WORD * HeadWord(v, i)..]) == WORD * ChildWord(v, i) <==>
            forall j :: 0 <= j < |v.items| ==> !IsGap(v.items[j])
  {
    PartsOfFit(v, t);
    WordsAndBytes(v, t, i);
    OffsetShort(PartsOf(v), MembersOf(v, t), i);
    SlotHolds(v, i);
    OffsetRead(v, i, WORD * HeadWord(v, i), TailOffset(PartsOf(v), i));
    GapsAreGaps(v, t);
  }

  lemma OffsetRead(v: Abi, i: nat, k: nat, n: nat)
    requires At(Encode(v), k, SizeWord(n)) && n < USIZE
    ensures k + WORD <= |Encode(v)| && ReadSize(Encode(v)[k..]) == n
  {
    SlotReads(Encode(v), k, n);
  }

  /** The slot of an item that is not static. */
  lemma SlotHolds(v: Abi, i: nat)
    requires v.AArray? && i < |v.items| && !IsStatic(v.items[i])
    ensures At(Encode(v), Base(v) + HeadPos(PartsOf(v), i), SizeWord(TailOffset(PartsOf(v), i)))
  {
    HeadAt(PartsOf(v), Concat(Area(PartsOf(v))), i);
    ChildrenAreaAt(v, HeadPos(PartsOf(v), i), SizeWord(TailOffset(PartsOf(v), i)));
  }

  lemma GapsAreGaps(v: Abi, t: AbiType)
    requires v.AArray? && HasType(v, t)
    ensures (forall j :: 0 <= j < |v.items| ==> !IsGap(v.items[j])) <==>
            (forall j :: 0 <= j < |v.items| ==> !Gap(MembersOf(v, t)[j]))
  {
    forall j | 0 <= j < |v.items| ensures IsGap(v.items[j]) <==> Gap(MembersOf(v, t)[j]) {
    }
  }

  lemma OffsetShort(ps: seq<Part>, ts: seq<AbiType>, i: nat)
    requires PartsFit(ps, ts) && i < |ps|
    ensures TailOffset(ps, i) <= TailPos(ps, i) <= |Concat(Area(ps))|
    ensures TailOffset(ps, i) == TailPos(ps, i) <==> forall j :: 0 <= j < |ts| ==> !Gap(ts[j])
  {
    HeadSizeOfAll(ps, ts);
    TailPosIs(ps, ts, i);
    AreaSize(ps, ts);
    TailsWithin(ps, i);
  }

  lemma TailsWithin(ps: seq<Part>, i: nat)
    requires i <= |ps|
    ensures StartOf(TailPieces(ps), i) <= StartOf(TailPieces(ps), |ps|)
  {
    var ts := TailPieces(ps);
    assert ts[..|ps|] == ts == ts[..i] + ts[i..];
    ConcatAppend(ts[..i], ts[i..]);
  }

  // ---- where the decoder looks ----

  /** The head cursor when item `k` is read. */
  function Cursor(ts: seq<AbiType>, k: nat): nat
    requires k <= |ts|
  {
    Sum(Moves(ts)[..k])
  }

  /** At a level without harm the cursor is at the slot of every item that carries data. */
  lemma CursorAtSlot(ps: seq<Part>, ts: seq<AbiType>, k: nat)
    requires PartsFit(ps, ts) && Level(ts) && k < |ts| && Carries(ts[k])
    ensures Cursor(ts, k) == HeadPos(ps, k)
    ensures !IsStaticType(ts[k]) ==> TailOffset(ps, k) == TailPos(ps, k)
  {
    HeadStart(ps, ts, k);
    RoomsBounds(ts, k);
    assert forall i :: 0 <= i < k ==> !Drifts(ts[i]);
    if !IsStaticType(ts[k]) {
      assert forall i :: 0 <= i < |ts| ==> !Gap(ts[i]);
      HeadSizeWithoutGaps(ps, ts, |ps|);
      assert ps[..|ps|] == ps && Rooms(ts)[..|ps|] == Rooms(ts);
      TailPosIs(ps, ts, k);
    }
  }

  /** The decoder finds every item that carries data. */
  lemma LocateItem(ps: seq<Part>, ts: seq<AbiType>, x: Abi, y: Abi, body: Bytes, k: nat)
    requires PartsFit(ps, ts) && Level(ts) && k < |ts| && Carries(ts[k])
    requires WellSized(ts[k]) && HasType(x, ts[k]) && HasType(y, ts[k])
    requires ps[k] == Part(IsStatic(y), Encode(y), TypesOf(y))
    requires Concat(Area(ps)) <= body && |body| < USIZE
    ensures ChildPos(ps, k) <= |body| && Encode(y) <= body[ChildPos(ps, k)..]
    ensures Locate(x, body, Cursor(ts, k)) == Some((ChildPos(ps, k), Move(ts[k])))
  {
    CursorAtSlot(ps, ts, k);
    TypedNeverPanics(x, ts[k]);
    Geometry(x, ts[k]);
    Geometry(y, ts[k]);
    HeadAt(ps, body, k);
    TailAt(ps, body, k);
    assert PartOf(ps[k], ts[k]);
    TypeSizes(ts[k]);
    if !IsStaticType(ts[k]) {
      AtDrop(body, HeadPos(ps, k), SizeWord(TailPos(ps, k)));
      SizeWordReadBack(TailPos(ps, k), body[HeadPos(ps, k)..]);
    }
    AtDrop(body, ChildPos(ps, k), Encode(y));
  }

  /** An item without data is read wherever the cursor stands. */
  lemma LocateHollow(u: AbiType, x: Abi, body: Bytes, c: nat)
    requires WellSized(u) && HasType(x, u) && !Carries(u)
    ensures Locate(x, body, c) == Some((c, 0)) && Move(u) == 0
  {
    TypedNeverPanics(x, u);
    Geometry(x, u);
    TypeSizes(u);
  }

  lemma CursorInside(ps: seq<Part>, ts: seq<AbiType>, k: nat)
    requires PartsFit(ps, ts) && k <= |ts|
    ensures Cursor(ts, k) <= HeadPos(ps, k) <= |Concat(Area(ps))|
  {
    HeadStart(ps, ts, k);
    RoomsBounds(ts, k);
    AreaSize(ps, ts);
    SumGrows(Rooms(ts), k, |ts|);
    assert Rooms(ts)[..|ts|] == Rooms(ts);
  }

  /** The types without gaps are among the sane ones. */
  lemma {:induction false} GoodIsSane(t: AbiType)
    requires GoodType(t)
    ensures WellSized(t) && Sane(t) && !Drifts(t) && Carries(t)
  {
    match t
    case TList(e) => GoodIsSane(e);
    case TTuple(ts) =>
      forall i | 0 <= i < |ts| ensures WellSized(ts[i]) && Sane(ts[i]) && !Drifts(ts[i]) && Carries(ts[i]) {
        GoodIsSane(ts[i]);
      }
      assert Carries(ts[0]);
      forall i | 0 <= i < |ts| ensures !Gap(ts[i]) {
        assert GoodType(ts[i]);
      }
    case _ =>
  }

  lemma SaneLevel(v: Abi, t: AbiType)
    requires v.AArray? && HasType(v, t) && Sane(t)
    ensures Level(MembersOf(v, t))
    ensures forall i :: 0 <= i < |v.items| ==> Sane(MembersOf(v, t)[i])
  {
    var ts := MembersOf(v, t);
    if v.dynamicSize {
      TypeSizes(t.element);
      forall i | 0 <= i < |ts| ensures ts[i] == t.element {
      }
    } else {
      assert ts == t.members;
    }
  }
}
