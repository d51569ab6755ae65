/** A type with a harmful-looking gap that round-trips all the same. */
module AbiLuckyGap {
  import opened Words
  import opened Pieces
  import opened AbiCodec
  import opened AbiLayout
  import opened AbiGaps
  import opened AbiRoundTrip
  import opened AbiGapFailures

  const BOX := TTuple([TDynamic])
  const GAP := TTuple([])
  const TWO := TTuple([GAP, GAP])
  const KEY := TTuple([TWO, GAP])
  /** `((bytes), T[0], ((T[0], T[0]), T[0]))`: a dynamic tuple beside a gap. */
  const LUCKY := TTuple([BOX, GAP, KEY])

  /** What the proofs need to know of a static member without data. */
  ghost predicate Hollow(t: AbiType, room: nat) {
    WellSized(t) && IsStaticType(t) && !Carries(t) && Room(t) == room
  }

  lemma GapHollow()
    ensures Hollow(GAP, WORD) && Gap(GAP)
  {}

  lemma PairHollow(a: AbiType, b: AbiType, m: nat, n: nat)
    requires Hollow(a, m) && Hollow(b, n)
    ensures Hollow(TTuple([a, b]), m + n) && !Gap(TTuple([a, b]))
  {
    var t := TTuple([a, b]);
    assert t.members[0] == a && t.members[1] == b;
    SumTwo(m, n, seq(|t.members|, i requires 0 <= i < |t.members| => Room(t.members[i])));
  }

  lemma SumTwo(a: nat, b: nat, xs: seq<nat>)
    requires |xs| == 2 && xs[0] == a && xs[1] == b
    ensures Sum(xs) == a + b && Sum(xs[..1]) == a
  {
    var ys, zs := xs[1..], xs[..1];
    assert ys[0] == b && ys[1..] == [] && zs[1..] == [];
    assert Sum(ys) == b && Sum(xs) == a + Sum(ys);
  }

  lemma LuckyMembers()
    ensures Hollow(TWO, 2 * WORD) && Hollow(KEY, 3 * WORD) && !Gap(TWO) && !Gap(KEY)
    ensures WellSized(BOX) && !IsStaticType(BOX) && Carries(BOX) && Room(BOX) == WORD
  {
    GapHollow();
    PairHollow(GAP, GAP, WORD, WORD);
    PairHollow(TWO, GAP, 2 * WORD, WORD);
    assert BOX.members[0] == TDynamic;
  }

  /** By the general condition the type is not sane: its first member is dynamic and its second a gap. */
  lemma LuckyIsNotSane()
    ensures WellSized(LUCKY) && !IsStaticType(LUCKY) && Carries(LUCKY) && !Sane(LUCKY)
  {
    LuckyMembers();
    GapHollow();
    var ts := LUCKY.members;
    assert ts[0] == BOX && ts[1] == GAP && ts[2] == KEY;
    assert !IsStaticType(ts[0]) && Gap(ts[1]);
  }

  /** The last slot of the third member holds its `head_size`. */
  lemma KeyHolds(y: Abi, ps: seq<Part>)
    requires HasType(y, KEY) && ps == PartsOf(y)
    ensures At(Encode(y), 2 * WORD, SizeWord(2 * WORD))
  {
    LuckyMembers();
    GapHollow();
    PartsOfFit(y, KEY);
    assert MembersOf(y, KEY) == [TWO, GAP];
    HollowPair(ps, TWO, GAP);
    HeadAt(ps, Encode(y), 1);
  }

  lemma HollowPair(ps: seq<Part>, a: AbiType, b: AbiType)
    requires PartsFit(ps, [a, b]) && IsStaticType(a) && Gap(b) && !Gap(a)
    ensures HeadPos(ps, 1) == Room(a) && !InHead(ps[1]) && TailOffset(ps, 1) == Room(a)
  {
    var ts := [a, b];
    HeadStart(ps, ts, 1);
    SumTwo(Room(a), Room(b), Rooms(ts));
    assert PartOf(ps[0], ts[0]) && PartOf(ps[1], ts[1]);
    HeadCountOf(ps[0], a);
    HeadCountOf(ps[1], b);
    assert ps[..1][..0] == [] && ps[..|ps| - 1] == ps[..1];
    assert HeadSize(ps[..1]) == HeadCount(ps[0]) && HeadSize(ps) == HeadSize(ps[..1]) + HeadCount(ps[1]);
    NoTails(ps, 1);
  }

  /** The first member's tail: an offset word, then the byte string. */
  lemma BoxHolds(y: Abi)
    requires HasType(y, BOX)
    ensures At(Encode(y), WORD, Encode(y.items[0]))
  {
    LuckyMembers();
    assert GoodType(TDynamic) && GoodType(BOX);
    TypedParts(y, BOX);
    var ps := PartsOf(y);
    PartsOfFit(y, BOX);
    assert MembersOf(y, BOX) == [TDynamic];
    ChildAt(ps, Encode(y), 0);
    TailPosIs(ps, [TDynamic], 0);
    assert Rooms([TDynamic]) == [WORD];
    assert [WORD][1..] == [];
  }

  lemma SumThree(a: nat, b: nat, c: nat, xs: seq<nat>)
    requires |xs| == 3 && xs[0] == a && xs[1] == b && xs[2] == c
    ensures Sum(xs) == a + b + c && Sum(xs[..2]) == a + b && Sum(xs[..0]) == 0
  {
    SumTwo(b, c, xs[1..]);
    SumTwo(a, b, xs[..2]);
  }

  /** Where everything is: `head_size` is one word short of the head slots. */
  lemma LuckyLayout(ps: seq<Part>)
    requires PartsFit(ps, LUCKY.members)
    ensures HeadPos(ps, 0) == 0 && HeadPos(ps, 2) == 2 * WORD && TailPos(ps, 0) == 5 * WORD
            && TailOffset(ps, 0) == 4 * WORD
    ensures !ps[0].isStatic && InHead(ps[2])
  {
    LuckyMembers();
    GapHollow();
    var ts := LUCKY.members;
    assert PartOf(ps[0], BOX) && PartOf(ps[1], GAP) && PartOf(ps[2], KEY);
    SumThree(WORD, WORD, 3 * WORD, Rooms(ts));
    HeadStart(ps, ts, 0);
    HeadStart(ps, ts, 2);
    TailPosIs(ps, ts, 0);
    LuckyHeadSize(ps);
  }

  lemma LuckyHeadSize(ps: seq<Part>)
    requires |ps| == 3 && HeadCount(ps[0]) == WORD && HeadCount(ps[1]) == 0 && HeadCount(ps[2]) == 3 * WORD
    ensures HeadSize(ps) == 4 * WORD
  {
    assert ps[..2][..1] == ps[..1] && ps[..1][..0] == [];
    assert HeadSize(ps[..1]) == WORD && HeadSize(ps[..2]) == WORD;
  }

  lemma AtNested(body: Bytes, k: nat, p: Bytes, j: nat, q: Bytes)
    requires At(body, k, p) && At(p, j, q)
    ensures At(body, k + j, q)
  {
    forall i | 0 <= i < |q| ensures body[k + j + i] == q[i] {
      AtIndex(p, j, q, i);
      AtIndex(body, k, p, j + i);
    }
  }

  lemma AtSuffix(body: Bytes, k: nat, m: nat, q: Bytes)
    requires At(body, k + m, q)
    ensures At(body[k..], m, q)
  {
    forall i | 0 <= i < |q| ensures body[k..][m + i] == q[i] {
      AtIndex(body, k + m, q, i);
    }
  }

  /** A one-member tuple whose offset word says 64, with its byte string there. */
  lemma BoxReads(x: Abi, y: Abi, b: Bytes)
    requires HasType(x, BOX) && HasType(y, BOX) && |b| < USIZE
    requires At(b, 0, SizeWord(2 * WORD)) && At(b, 2 * WORD, Encode(y.items[0]))
    ensures ReadsBack(Decode(x, b), x, y)
  {
    assert MembersOf(y, BOX) == [TDynamic] && b[0..] == b;
    AtDrop(b, 0, SizeWord(2 * WORD));
    SizeWordReadBack(2 * WORD, b);
    AtDrop(b, 2 * WORD, Encode(y.items[0]));
    Reads(x.items[0], y.items[0], TDynamic, b[2 * WORD..]);
    SumPrefix(Moves([TDynamic]), 0);
    assert ItemReads(x, y, BOX, b, 0);
    ArrayFromItems(x, y, BOX, b);
  }

  /** The items of a lucky value. */
  ghost predicate Items(v: Abi, ts: seq<AbiType>) {
    && HasType(v, LUCKY) && v.AArray? && !v.dynamicSize && ts == [BOX, GAP, KEY] && ts == MembersOf(v, LUCKY)
        && |v.items| == 3
    && HasType(v.items[0], BOX) && v.items[0].AArray? && |v.items[0].items| == 1 && HasType(v.items[2], KEY)
  }

  lemma LuckyItems(v: Abi)
    requires HasType(v, LUCKY)
    ensures Items(v, [BOX, GAP, KEY]) && PartsFit(PartsOf(v), [BOX, GAP, KEY])
  {
    LuckyIsNotSane();
    PartsOfFit(v, LUCKY);
    assert MembersOf(v, LUCKY) == LUCKY.members;
  }

  /** The first member is found by way of the third member's slot. */
  lemma LuckyBytes(v: Abi, ts: seq<AbiType>, ps: seq<Part>, body: Bytes)
    requires Items(v, ts) && PartsFit(ps, ts) && ps == PartsOf(v) && Concat(Area(ps)) <= body
    ensures At(body, 0, SizeWord(4 * WORD)) && At(body, 4 * WORD, SizeWord(2 * WORD))
    ensures At(body, 6 * WORD, Encode(v.items[0].items[0]))
  {
    LuckyLayout(ps);
    HeadAt(ps, body, 0);
    HeadAt(ps, body, 2);
    KeyHolds(v.items[2], PartsOf(v.items[2]));
    AtNested(body, 2 * WORD, Encode(v.items[2]), 2 * WORD, SizeWord(2 * WORD));
    TailAt(ps, body, 0);
    BoxHolds(v.items[0]);
    AtNested(body, 5 * WORD, Encode(v.items[0]), WORD, Encode(v.items[0].items[0]));
  }

  lemma BoxLocated(x: Abi, body: Bytes)
    requires HasType(x, BOX) && At(body, 0, SizeWord(4 * WORD))
    ensures Locate(x, body, 0) == Some((4 * WORD, WORD)) && Move(BOX) == WORD
  {
    LuckyMembers();
    Geometry(x, BOX);
    TypedNeverPanics(x, BOX);
    assert body[0..] == body;
    AtDrop(body, 0, SizeWord(4 * WORD));
    SizeWordReadBack(4 * WORD, body);
  }

  lemma BoxFound(x: Abi, y: Abi, body: Bytes)
    requires HasType(x, BOX) && HasType(y, BOX) && |body| < USIZE
    requires At(body, 4 * WORD, SizeWord(2 * WORD)) && At(body, 6 * WORD, Encode(y.items[0]))
    ensures ReadsBack(Decode(x, body[4 * WORD..]), x, y)
  {
    AtSuffix(body, 4 * WORD, 0, SizeWord(2 * WORD));
    AtSuffix(body, 4 * WORD, 2 * WORD, Encode(y.items[0]));
    BoxReads(x, y, body[4 * WORD..]);
  }

  lemma LuckyFirst(r: Abi, v: Abi, ts: seq<AbiType>, body: Bytes)
    requires Items(r, ts) && Items(v, ts) && PartsFit(PartsOf(v), ts)
    requires Concat(Area(PartsOf(v))) <= body && |body| < USIZE
    ensures ItemReads(r, v, LUCKY, body, 0)
  {
    LuckyBytes(v, ts, PartsOf(v), body);
    BoxLocated(r.items[0], body);
    BoxFound(r.items[0], v.items[0], body);
    ItemReadsFrom(r, v, LUCKY, ts, body, 0, 4 * WORD);
  }

  lemma ItemReadsFrom(r: Abi, v: Abi, t: AbiType, ts: seq<AbiType>, body: Bytes, k: nat, at: nat)
    requires r.AArray? && v.AArray? && HasType(v, t) && ts == MembersOf(v, t) && k < |ts| <= |r.items|
    requires Locate(r.items[k], body, Cursor(ts, k)) == Some((at, Move(ts[k]))) && at <= |body|
    requires ReadsBack(Decode(r.items[k], body[at..]), r.items[k], v.items[k])
    ensures ItemReads(r, v, t, body, k)
  {
    SumPrefix(Moves(ts), k);
  }

  lemma LuckyRest(r: Abi, v: Abi, ts: seq<AbiType>, body: Bytes, k: nat)
    requires Items(r, ts) && Items(v, ts) && 1 <= k < 3
    requires Concat(Area(PartsOf(v))) <= body && |body| < USIZE
    ensures ItemReads(r, v, LUCKY, body, k)
  {
    LuckyMembers();
    LuckyIsNotSane();
    GapHollow();
    CursorOnBody(v, LUCKY, body, k);
    HollowItem(r.items[k], v.items[k], ts[k], body, Cursor(ts, k));
    ItemReadsFrom(r, v, LUCKY, ts, body, k, Cursor(ts, k));
  }

  lemma HollowItem(x: Abi, y: Abi, u: AbiType, body: Bytes, c: nat)
    requires WellSized(u) && !Carries(u) && HasType(x, u) && HasType(y, u) && c <= |body| < USIZE
    ensures Locate(x, body, c) == Some((c, 0)) && Move(u) == 0 && ReadsBack(Decode(x, body[c..]), x, y)
  {
    LocateHollow(u, x, body, c);
    HollowIsSane(u);
    Reads(x, y, u, body[c..]);
  }

  /**
   * The type is not sane, and yet every value of it reads back: two wrong offsets add up to the
   * right place. So for types with dynamic tuples inside tuples sanity is not necessary.
   */
  lemma LuckyRoundTrips()
    ensures WellSized(LUCKY) && !Sane(LUCKY) && RoundTrips(LUCKY)
  {
    LuckyIsNotSane();
    forall r, v, b | HasType(r, LUCKY) && HasType(v, LUCKY) && Encode(v) <= b && |b| < USIZE
      ensures ReadsBack(Decode(r, b), r, v)
    {
      LuckyRoundTrip(r, v, b);
    }
  }

  lemma LuckyRoundTrip(r: Abi, v: Abi, b: Bytes)
    requires HasType(r, LUCKY) && HasType(v, LUCKY) && Encode(v) <= b && |b| < USIZE
    ensures ReadsBack(Decode(r, b), r, v)
  {
    LuckyIsNotSane();
    LuckyItems(v);
    LuckyItems(r);
    ArrayHeader(v, LUCKY, b);
    forall k | 0 <= k < |v.items| ensures ItemReads(r, v, LUCKY, b[Base(v)..], k) {
      LuckyItem(r, v, [BOX, GAP, KEY], b[Base(v)..], k);
    }
    ArrayFromItems(r, v, LUCKY, b);
  }

  lemma LuckyItem(r: Abi, v: Abi, ts: seq<AbiType>, body: Bytes, k: nat)
    requires Items(r, ts) && Items(v, ts) && PartsFit(PartsOf(v), ts) && k < |v.items|
    requires Concat(Area(PartsOf(v))) <= body && |body| < USIZE
    ensures ItemReads(r, v, LUCKY, body, k)
  {
    if k == 0 {
      LuckyFirst(r, v, ts, body);
    } else {
      LuckyRest(r, v, ts, body, k);
    }
  }
}
