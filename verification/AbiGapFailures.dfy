/** The types whose gaps do harm: values that are not read back from their own encoding. */
module AbiGapFailures {
  import opened Words
  import opened Pieces
  import opened AbiCodec
  import opened AbiLayout
  import opened AbiGaps
  import opened AbiRoundTrip

  /** Whatever follows its encoding, `v` does not read itself back. */
  ghost predicate Misread(v: Abi) {
    forall rest: Bytes :: |Encode(v) + rest| < USIZE ==> !ReadsSame(Decode(v, Encode(v) + rest), v)
  }

  ghost predicate ReadsSame(d: Option<Abi>, v: Abi) { d.Some? && SameContent(d.value, v) }

  // ---- two values of every type that carries data ----

  /** Zero words, nothing in byte strings and lists. */
  function Zero(t: AbiType): Abi {
    match t
    case TWord(n, a, b) => A256(Zeros(if n <= WORD then n else 0), a, false, b)
    case TDynamic => ADynamic([])
    case TList(_) => AArray([], true)
    case TTuple(ts) => AArray(ZeroItems(ts), false)
  }

  function ZeroItems(ts: seq<AbiType>): (xs: seq<Abi>)
    ensures |xs| == |ts| && forall i :: 0 <= i < |ts| ==> xs[i] == Zero(ts[i])
  {
    seq(|ts|, i requires 0 <= i < |ts| => Zero(ts[i]))
  }

  lemma {:induction false} ZeroTyped(t: AbiType)
    requires WellSized(t)
    ensures HasType(Zero(t), t)
  {
    if t.TTuple? {
      forall i | 0 <= i < |t.members| ensures HasType(Zero(t).items[i], t.members[i]) {
        ZeroTyped(t.members[i]);
      }
    }
  }

  /** The first member that carries data. */
  function FirstCarrier(ts: seq<AbiType>, i: nat): (k: nat)
    requires i <= |ts| && exists j :: i <= j < |ts| && Carries(ts[j])
    ensures i <= k < |ts| && Carries(ts[k]) && forall j :: i <= j < k ==> !Carries(ts[j])
    decreases |ts| - i
  {
    if Carries(ts[i]) then i else FirstCarrier(ts, i + 1)
  }

  /** Like `Zero`, but its first word is one, or its length. */
  function One(t: AbiType): Abi
    requires Carries(t)
  {
    match t
    case TWord(n, a, b) => A256(if 1 <= n <= WORD then Zeros(n - 1) + [1] else [], a, false, b)
    case TDynamic => ADynamic([0])
    case TList(e) => AArray([Zero(e)], true)
    case TTuple(ts) =>
      var k := FirstCarrier(ts, 0);
      AArray(ZeroItems(ts)[k := One(ts[k])], false)
  }

  lemma {:induction false} OneTyped(t: AbiType)
    requires WellSized(t) && Carries(t)
    ensures HasType(One(t), t)
  {
    match t
    case TList(e) => ZeroTyped(e);
    case TTuple(ts) =>
      var k := FirstCarrier(ts, 0);
      OneTyped(ts[k]);
      forall i | 0 <= i < |ts| ensures HasType(One(t).items[i], ts[i]) {
        ZeroTyped(ts[i]);
      }
    case _ =>
  }

  // ---- what a successful decoding says of each item ----

  /** With the cursor at `c`, template `x` is found and reads `y`. */
  ghost predicate ReadsAt(x: Abi, body: Bytes, c: nat, y: Abi) {
    var place := Locate(x, body, c);
    place.Some? && place.value.0 <= |body| && ReadsSame(Decode(x, body[place.value.0..]), y)
  }

  lemma {:induction false} LocateMoves(x: Abi, u: AbiType, body: Bytes, c: nat)
    requires WellSized(u) && HasType(x, u) && Locate(x, body, c).Some?
    ensures Locate(x, body, c).value.1 == Move(u)
  {
    Geometry(x, u);
    TypeSizes(u);
    TypedNeverPanics(x, u);
  }

  ghost predicate DecodesTo(x: Abi, body: Bytes, c: nat, y: Abi) {
    var place := Locate(x, body, c);
    place.Some? && place.value.0 <= |body| && Decode(x, body[place.value.0..]) == Some(y)
  }

  /** Templates taken from `r`, of types `us`. */
  ghost predicate Templates(r: Abi, ts: seq<Abi>, us: seq<AbiType>) {
    && r.AArray? && |ts| == |us|
    && forall i :: 0 <= i < |ts| ==> ts[i] in r.items && WellSized(us[i]) && HasType(ts[i], us[i])
  }

  lemma {:induction false} FirstItemSucceeds(r: Abi, ts: seq<Abi>, us: seq<AbiType>, body: Bytes, c: nat, xs: seq<Abi>)
    requires Templates(r, ts, us) && ts != [] && DecodeItems(r, ts, body, c) == Some(xs)
    ensures |xs| > 0 && DecodesTo(ts[0], body, c, xs[0])
    ensures Templates(r, ts[1..], us[1..]) && DecodeItems(r, ts[1..], body, c + Move(us[0])) == Some(xs[1..])
  {
    var place := Locate(ts[0], body, c);
    assert place.Some? && place.value.0 <= |body|;
    LocateMoves(ts[0], us[0], body, c);
    DecodeItemsCons(r, ts, body, c, place.value.0, place.value.1);
    forall i | 0 <= i < |ts[1..]|
      ensures ts[1..][i] in r.items && WellSized(us[1..][i]) && HasType(ts[1..][i], us[1..][i])
    {
      assert ts[1..][i] == ts[i + 1];
    }
  }

  /** Item `i` and all after it are decoded with the cursor at `c`. */
  ghost predicate RestDecodes(r: Abi, ts: seq<Abi>, us: seq<AbiType>, body: Bytes, c: nat, xs: seq<Abi>, i: nat) {
    && i <= |ts| == |us| && i <= |xs|
    && Templates(r, ts[i..], us[i..]) && DecodeItems(r, ts[i..], body, c) == Some(xs[i..])
  }

  lemma {:induction false} RestNext(r: Abi, ts: seq<Abi>, us: seq<AbiType>, body: Bytes, c: nat, xs: seq<Abi>, i: nat)
    requires i < |ts| && RestDecodes(r, ts, us, body, c, xs, i)
    ensures i < |xs| && DecodesTo(ts[i], body, c, xs[i]) && RestDecodes(r, ts, us, body, c + Move(us[i]), xs, i + 1)
  {
    FirstItemSucceeds(r, ts[i..], us[i..], body, c, xs[i..]);
    assert ts[i..][1..] == ts[i + 1..] && us[i..][1..] == us[i + 1..] && xs[i..][1..] == xs[i + 1..];
  }

  lemma {:induction false} ItemSucceeds(r: Abi, ts: seq<Abi>, us: seq<AbiType>, body: Bytes, c: nat, xs: seq<Abi>,
      k: nat, i: nat, at: nat)
    requires k <= i < |ts| == |us| && at == c + Cursor(us, i)
    requires RestDecodes(r, ts, us, body, c + Cursor(us, k), xs, k)
    ensures i < |xs| && DecodesTo(ts[i], body, at, xs[i])
    decreases i - k
  {
    RestNext(r, ts, us, body, c + Cursor(us, k), xs, k);
    if k < i {
      SumPrefix(Moves(us), k);
      ItemSucceeds(r, ts, us, body, c, xs, k + 1, i, at);
    }
  }

  lemma ItemsSucceed(r: Abi, ts: seq<Abi>, us: seq<AbiType>, body: Bytes, c: nat, xs: seq<Abi>, i: nat)
    requires Templates(r, ts, us) && i < |ts| && DecodeItems(r, ts, body, c) == Some(xs)
    ensures i < |xs| && DecodesTo(ts[i], body, c + Cursor(us, i), xs[i])
  {
    assert ts[0..] == ts && us[0..] == us && xs[0..] == xs;
    ItemSucceeds(r, ts, us, body, c, xs, 0, i, c + Cursor(us, i));
  }

  /** An array that reads itself back reads back each of its items. */
  lemma {:induction false} EachItemReads(v: Abi, t: AbiType, b: Bytes, i: nat)
    requires v.AArray? && WellSized(t) && HasType(v, t) && Encode(v) <= b && |b| < USIZE && i < |v.items|
    requires ReadsSame(Decode(v, b), v)
    ensures Base(v) <= |b| && ReadsAt(v.items[i], b[Base(v)..], Cursor(MembersOf(v, t), i), v.items[i])
  {
    ArrayHeader(v, t, b);
    OwnItemsDecoded(v, b);
    ItemReadsOwn(v, MembersOf(v, t), b[Base(v)..], Decode(v, b).value.items, i);
  }

  lemma ItemReadsOwn(v: Abi, us: seq<AbiType>, body: Bytes, xs: seq<Abi>, i: nat)
    requires v.AArray? && Templates(v, v.items, us) && i < |us| == |xs| && DecodeItems(v, v.items, body, 0) == Some(xs)
    requires SameContent(xs[i], v.items[i])
    ensures ReadsAt(v.items[i], body, Cursor(us, i), v.items[i])
  {
    ItemsSucceed(v, v.items, us, body, 0, xs, i);
  }

  lemma OwnItemsDecoded(v: Abi, b: Bytes)
    requires v.AArray? && |v.items| > 0 && Base(v) <= |b| && (v.dynamicSize ==> ReadSize(b) == |v.items|)
    requires Decode(v, b).Some?
    ensures DecodeItems(v, v.items, b[Base(v)..], 0) == Some(Decode(v, b).value.items)
  {
    assert Resize(v.items, |v.items|) == v.items && b[0..] == b;
  }

  // ---- misread static items ----

  /** The last byte of the first word. */
  function Mark(v: Abi, t: AbiType): Byte
    requires WellSized(t) && HasType(v, t) && IsStaticType(t) && Carries(t)
    decreases v
  {
    match v
    case A256(w, _, _, _) => w[|w| - 1]
    case AArray(xs, _) =>
      var k := FirstCarrier(t.members, 0);
      Mark(xs[k], t.members[k])
  }

  lemma {:induction false} Marks(t: AbiType)
    requires WellSized(t) && IsStaticType(t) && Carries(t)
    ensures HasType(Zero(t), t) && Mark(Zero(t), t) == 0
    ensures HasType(One(t), t) && Mark(One(t), t) == 1
  {
    ZeroTyped(t);
    OneTyped(t);
    if t.TTuple? {
      Marks(t.members[FirstCarrier(t.members, 0)]);
    }
  }

  lemma {:induction false} CursorOnFirst(ts: seq<AbiType>, k: nat)
    requires k <= |ts| && forall j :: 0 <= j < k ==> !Carries(ts[j])
    ensures Cursor(ts, k) == 0
  {
    forall i | 0 <= i < k ensures Moves(ts)[..k][i] == 0 {
      TypeSizes(ts[i]);
    }
    SumZero(Moves(ts)[..k]);
  }

  /** A static value is read from the front: its mark is byte 31. */
  lemma {:induction false} MarkIsRead(x: Abi, y: Abi, t: AbiType, b: Bytes)
    requires WellSized(t) && IsStaticType(t) && Carries(t) && HasType(x, t) && HasType(y, t)
    requires ReadsSame(Decode(x, b), y)
    ensures |b| >= WORD && b[WORD - 1] == Mark(y, t)
    decreases x
  {
    if x.AArray? {
      var k := FirstCarrier(t.members, 0);
      FirstCarrierRead(x, y, t, b, k);
      MarkIsRead(x.items[k], y.items[k], t.members[k], b);
    }
  }

  lemma FirstCarrierRead(x: Abi, y: Abi, t: AbiType, b: Bytes, k: nat)
    requires x.AArray? && t.TTuple? && WellSized(t) && IsStaticType(t) && HasType(x, t) && HasType(y, t)
    requires ReadsSame(Decode(x, b), y)
    requires k < |t.members| && forall j :: 0 <= j < k ==> !Carries(t.members[j])
    ensures ReadsSame(Decode(x.items[k], b), y.items[k])
  {
    var ts, xs := t.members, Decode(x, b).value.items;
    OwnItemsDecoded(x, b);
    assert b[0..] == b;
    ItemsSucceed(x, x.items, ts, b, 0, xs, k);
    CursorOnFirst(ts, k);
    Geometry(x.items[k], ts[k]);
  }

  lemma BodyIs(v: Abi, rest: Bytes)
    requires v.AArray?
    ensures Base(v) <= |Encode(v)| && (Encode(v) + rest)[Base(v)..] == Concat(Area(PartsOf(v))) + rest
  {}

  /** A static item that is read back has its mark under the cursor. */
  lemma {:induction false} MarkUnderCursor(x: Abi, u: AbiType, area: Bytes, rest: Bytes, c: nat)
    requires WellSized(u) && HasType(x, u) && IsStaticType(u) && Carries(u) && c + WORD <= |area|
    requires ReadsAt(x, area + rest, c, x)
    ensures area[c + WORD - 1] == Mark(x, u)
  {
    Geometry(x, u);
    MarkIsRead(x, x, u, (area + rest)[c..]);
    assert (area + rest)[c..][WORD - 1] == area[c + WORD - 1];
  }

  /** A static item whose mark is not under the cursor is misread, whatever follows. */
  lemma {:induction false} StaticItemMisread(v: Abi, t: AbiType, j: nat, c: nat, area: Bytes)
    requires v.AArray? && WellSized(t) && HasType(v, t) && j < |v.items|
    requires var u := MembersOf(v, t)[j]; WellSized(u) && IsStaticType(u) && Carries(u)
    requires c == Cursor(MembersOf(v, t), j) && area == Concat(Area(PartsOf(v)))
    requires c + WORD <= |area| && area[c + WORD - 1] != Mark(v.items[j], MembersOf(v, t)[j])
    ensures Misread(v)
  {
    forall rest: Bytes | |Encode(v) + rest| < USIZE ensures !ReadsSame(Decode(v, Encode(v) + rest), v) {
      if ReadsSame(Decode(v, Encode(v) + rest), v) {
        EachItemReads(v, t, Encode(v) + rest, j);
        BodyIs(v, rest);
        MarkUnderCursor(v.items[j], MembersOf(v, t)[j], area, rest, c);
      }
    }
  }

  // ---- two values that differ in one item ----

  ghost predicate Twins(ps: seq<Part>, qs: seq<Part>, j: nat) {
    && |ps| == |qs| && j < |ps| && (forall i :: 0 <= i < |ps| && i != j ==> ps[i] == qs[i])
    && ps[j].isStatic == qs[j].isStatic && (ps[j].isStatic ==> |ps[j].enc| == |qs[j].enc|)
  }

  lemma {:induction false} TwinHeadSize(ps: seq<Part>, qs: seq<Part>, j: nat, k: nat)
    requires Twins(ps, qs, j) && k <= |ps|
    ensures HeadSize(ps[..k]) == HeadSize(qs[..k])
  {
    if k > 0 {
      TwinHeadSize(ps, qs, j, k - 1);
      assert ps[..k][..k - 1] == ps[..k - 1] && qs[..k][..k - 1] == qs[..k - 1];
    }
  }

  lemma TwinOffsets(ps: seq<Part>, qs: seq<Part>, j: nat, i: nat)
    requires Twins(ps, qs, j) && i <= j
    ensures TailOffset(ps, i) == TailOffset(qs, i) && TailPieces(ps)[..i] == TailPieces(qs)[..i]
  {
    TwinHeadSize(ps, qs, j, |ps|);
    assert ps[..|ps|] == ps && qs[..|qs|] == qs;
    assert TailPieces(ps)[..i] == TailPieces(qs)[..i];
  }

  /** The head slots before item `j` do not show the difference. */
  lemma TwinHeads(ps: seq<Part>, qs: seq<Part>, j: nat)
    requires Twins(ps, qs, j)
    ensures Area(ps)[..j] == Area(qs)[..j] && HeadPos(ps, j) == HeadPos(qs, j)
  {
    forall i | 0 <= i < j ensures Area(ps)[i] == Area(qs)[i] {
      TwinOffsets(ps, qs, j, i);
      assert Area(ps)[i] == HeadOf(ps[i], TailOffset(ps, i));
    }
  }

  lemma ConcatFront<T>(xs: seq<seq<T>>, k: nat)
    requires k <= |xs|
    ensures StartOf(xs, k) <= |Concat(xs)| && Concat(xs)[..StartOf(xs, k)] == Concat(xs[..k])
  {
    assert xs == xs[..k] + xs[k..];
    ConcatAppend(xs[..k], xs[k..]);
  }

  lemma SameFront(ps: seq<Part>, qs: seq<Part>, j: nat, p: nat)
    requires Twins(ps, qs, j) && p < HeadPos(ps, j)
    ensures HeadPos(ps, j) <= |Concat(Area(ps))| && HeadPos(ps, j) <= |Concat(Area(qs))|
    ensures Concat(Area(ps))[p] == Concat(Area(qs))[p]
  {
    TwinHeads(ps, qs, j);
    ConcatFront(Area(ps), j);
    ConcatFront(Area(qs), j);
    assert Concat(Area(ps))[p] == Concat(Area(ps))[..HeadPos(ps, j)][p];
    assert Concat(Area(qs))[p] == Concat(Area(qs))[..HeadPos(ps, j)][p];
  }

  /** Arrays of type `t` that agree except for item `j`, zero in one and one in the other. */
  ghost predicate Pair(v: Abi, w: Abi, t: AbiType, j: nat) {
    && v.AArray? && w.AArray? && WellSized(t) && HasType(v, t) && HasType(w, t) && |v.items| == |w.items|
        && j < |v.items|
    && (forall i :: 0 <= i < |v.items| && i != j ==> v.items[i] == w.items[i])
    && Carries(MembersOf(v, t)[j]) && v.items[j] == Zero(MembersOf(v, t)[j]) && w.items[j] == One(MembersOf(v, t)[j])
  }

  lemma PairTwins(v: Abi, w: Abi, t: AbiType, j: nat)
    requires Pair(v, w, t, j)
    ensures Twins(PartsOf(v), PartsOf(w), j) && MembersOf(v, t) == MembersOf(w, t)
    ensures PartsFit(PartsOf(v), MembersOf(v, t)) && PartsFit(PartsOf(w), MembersOf(v, t))
  {
    PartsOfFit(v, t);
    PartsOfFit(w, t);
    assert MembersOf(v, t) == MembersOf(w, t);
    assert PartOf(PartsOf(v)[j], MembersOf(v, t)[j]) && PartOf(PartsOf(w)[j], MembersOf(v, t)[j]);
  }

  /** Behind a drift, the cursor is at least a word short of the slot. */
  lemma CursorShort(ps: seq<Part>, ts: seq<AbiType>, i: nat, j: nat)
    requires PartsFit(ps, ts) && i < j < |ts| && Drifts(ts[i])
    ensures Cursor(ts, j) + WORD <= HeadPos(ps, j) && Cursor(ts, j) % WORD == 0
  {
    HeadStart(ps, ts, j);
    RoomsBounds(ts, j);
  }

  /** A static item behind a drift is misread in one of the two. */
  lemma DriftedStaticItem(v: Abi, w: Abi, t: AbiType, i: nat, j: nat) returns (bad: Abi)
    requires Pair(v, w, t, j) && i < j && Drifts(MembersOf(v, t)[i]) && IsStaticType(MembersOf(v, t)[j])
    ensures (bad == v || bad == w) && Misread(bad)
  {
    var ps, qs, ts := PartsOf(v), PartsOf(w), MembersOf(v, t);
    var c := Cursor(ts, j);
    PairTwins(v, w, t, j);
    CursorShort(ps, ts, i, j);
    SameFront(ps, qs, j, c + WORD - 1);
    Marks(ts[j]);
    if Concat(Area(ps))[c + WORD - 1] == 0 {
      bad := w;
      StaticItemMisread(w, t, j, c, Concat(Area(qs)));
    } else {
      bad := v;
      StaticItemMisread(v, t, j, c, Concat(Area(ps)));
    }
  }

  // ---- misread lengths ----

  function LengthOf(x: Abi): nat
    requires x.ADynamic? || x.AArray?
  {
    if x.ADynamic? then |x.data| else |x.items|
  }

  lemma {:induction false} ItemsCount(r: Abi, ts: seq<Abi>, body: Bytes, c: nat)
    requires r.AArray? && forall i :: 0 <= i < |ts| ==> ts[i] in r.items
    ensures DecodeItems(r, ts, body, c).Some? ==> |DecodeItems(r, ts, body, c).value| == |ts|
    decreases |ts|
  {
    if ts != [] && Locate(ts[0], body, c).Some? {
      ItemsCount(r, ts[1..], body, c + Locate(ts[0], body, c).value.1);
    }
  }

  /** A byte string or list that reads itself back has its length in front. */
  lemma {:induction false} LengthIsRead(x: Abi, b: Bytes)
    requires (x.ADynamic? || (x.AArray? && x.dynamicSize)) && |b| >= WORD && ReadsSame(Decode(x, b), x)
    ensures ReadSize(b) == LengthOf(x)
  {
    if x.AArray? && x.items != [] && ReadSize(b) > 0 {
      ItemsCount(x, Resize(x.items, ReadSize(b)), b[WORD..], 0);
    }
  }

  lemma ReadSizeFront(a: Bytes, rest: Bytes, p: nat)
    requires p + WORD <= |a|
    ensures ReadSize((a + rest)[p..]) == ReadSize(a[p..])
  {
    assert (a + rest)[p..][..WORD] == a[p..][..WORD];
  }

  lemma {:induction false} LengthUnderCursor(x: Abi, u: AbiType, area: Bytes, rest: Bytes, c: nat)
    requires (u.TDynamic? || u.TList?) && HasType(x, u) && c + WORD <= |area| && ReadSize(area[c..]) + WORD <= |area|
    requires ReadsAt(x, area + rest, c, x)
    ensures ReadSize(area[ReadSize(area[c..])..]) == LengthOf(x)
  {
    var a := ReadSize(area[c..]);
    ReadSizeFront(area, rest, c);
    ReadSizeFront(area, rest, a);
    LengthIsRead(x, (area + rest)[a..]);
  }

  lemma {:induction false} LengthMisread(v: Abi, t: AbiType, j: nat, c: nat, area: Bytes)
    requires v.AArray? && WellSized(t) && HasType(v, t) && j < |v.items|
    requires var u := MembersOf(v, t)[j]; u.TDynamic? || u.TList?
    requires c == Cursor(MembersOf(v, t), j) && area == Concat(Area(PartsOf(v)))
    requires c + WORD <= |area| && ReadSize(area[c..]) + WORD <= |area|
    requires ReadSize(area[ReadSize(area[c..])..]) != LengthOf(v.items[j])
    ensures Misread(v)
  {
    forall rest: Bytes | |Encode(v) + rest| < USIZE ensures !ReadsSame(Decode(v, Encode(v) + rest), v) {
      if ReadsSame(Decode(v, Encode(v) + rest), v) {
        EachItemReads(v, t, Encode(v) + rest, j);
        BodyIs(v, rest);
        LengthUnderCursor(v.items[j], MembersOf(v, t)[j], area, rest, c);
      }
    }
  }

  // ---- whole words ----

  ghost predicate Aligned(pieces: seq<Bytes>) {
    forall i :: 0 <= i < |pieces| ==> |pieces[i]| % WORD == 0
  }

  lemma {:induction false} StartAligned(pieces: seq<Bytes>, k: nat)
    requires Aligned(pieces) && k <= |pieces|
    ensures StartOf(pieces, k) % WORD == 0
  {
    if k > 0 {
      StartAligned(pieces, k - 1);
      ConcatSplit(pieces, k - 1);
      AddAligned(StartOf(pieces, k - 1), |pieces[k - 1]|);
    }
  }

  lemma WordsFit(start: nat, p: nat, len: nat)
    requires start % WORD == 0 && p % WORD == 0 && len % WORD == 0 && start <= p < start + len
    ensures (p - start) % WORD == 0 && p + WORD <= start + len
  {}

  /** Every aligned word lies in one piece. */
  lemma WordIn(pieces: seq<Bytes>, p: nat) returns (q: nat, off: nat)
    requires Aligned(pieces) && p % WORD == 0 && p + WORD <= |Concat(pieces)|
    ensures q < |pieces| && p == StartOf(pieces, q) + off && off % WORD == 0 && off + WORD <= |pieces[q]|
    ensures ReadSize(Concat(pieces)[p..]) == ReadSize(pieces[q][off..])
  {
    assert StartOf(pieces, 0) == 0;
    q := OwnerOf(pieces, p, 0);
    StartAligned(pieces, q);
    WordsFit(StartOf(pieces, q), p, |pieces[q]|);
    off := p - StartOf(pieces, q);
    ConcatAt(pieces, q);
    assert Concat(pieces)[p..][..WORD] == pieces[q][off..][..WORD] by {
      PieceWord(Concat(pieces), StartOf(pieces, q), pieces[q], off);
    }
  }

  lemma PieceWord(b: Bytes, start: nat, piece: Bytes, off: nat)
    requires At(b, start, piece) && off + WORD <= |piece|
    ensures b[start + off..][..WORD] == piece[off..][..WORD]
  {
    forall i | 0 <= i < WORD ensures b[start + off..][..WORD][i] == piece[off..][..WORD][i] {
      AtIndex(b, start, piece, off + i);
    }
  }

  ghost predicate AlignedParts(ps: seq<Part>) {
    forall i :: 0 <= i < |ps| ==> |ps[i].enc| % WORD == 0
  }

  lemma AreaAligned(ps: seq<Part>)
    requires AlignedParts(ps)
    ensures Aligned(Area(ps)) && Aligned(TailPieces(ps)) && |Area(ps)| == 2 * |ps|
    ensures |Concat(Area(ps))| % WORD == 0
  {
    forall i | 0 <= i < |ps|
      ensures |HeadOf(ps[i], TailOffset(ps, i))| % WORD == 0 && |TailPieces(ps)[i]| % WORD == 0
    {
      assert |ps[i].enc| % WORD == 0;
    }
    StartAligned(Area(ps), |Area(ps)|);
    StartOfEnd(Area(ps));
  }

  lemma {:induction false} HeadSizeAligned(ps: seq<Part>)
    requires AlignedParts(ps)
    ensures HeadSize(ps) % WORD == 0
  {
    if ps != [] {
      HeadSizeAligned(ps[..|ps| - 1]);
    }
  }

  lemma {:induction false} EncodeAligned(v: Abi, t: AbiType)
    requires HasType(v, t)
    ensures |Encode(v)| % WORD == 0
    decreases v
  {
    match v
    case A256(w, _, _, _) => assert |Encode(v)| == WORD;
    case ADynamic(d) => AddAligned(WORD, Roundup(|d|));
    case AArray(_, dyn) =>
      forall i | 0 <= i < |v.items| ensures |PartsOf(v)[i].enc| % WORD == 0 {
        EncodeAligned(v.items[i], MembersOf(v, t)[i]);
      }
      AreaAligned(PartsOf(v));
      AddAligned(|LengthPrefix(dyn, |v.items|)|, |Concat(Area(PartsOf(v)))|);
  }

  lemma PartsAligned(v: Abi, t: AbiType)
    requires v.AArray? && HasType(v, t)
    ensures AlignedParts(PartsOf(v))
  {
    forall i | 0 <= i < |v.items| ensures |PartsOf(v)[i].enc| % WORD == 0 {
      EncodeAligned(v.items[i], MembersOf(v, t)[i]);
    }
  }

  // ---- what the slots of zero values hold ----

  lemma {:induction false} ZerosAreZero(n: nat)
    ensures FromBigEndian(Zeros(n)) == 0
  {
    if n > 0 {
      ZerosAreZero(n - 1);
      assert Zeros(n)[..n - 1] == Zeros(n - 1);
    }
  }

  /** Aligned words of `b` are multiples of 32 that point into `b`, with room for a word. */
  ghost predicate Calm(b: Bytes) {
    forall p: nat :: p % WORD == 0 && p + WORD <= |b| ==> ReadSize(b[p..]) % WORD == 0 && ReadSize(b[p..]) + WORD <= |b|
  }

  lemma ZeroWordCalm(b: Bytes)
    requires b == Zeros(WORD)
    ensures Calm(b)
  {
    ZerosAreZero(WORD);
    assert b[0..][..WORD] == b;
    forall p: nat | p % WORD == 0 && p + WORD <= |b| ensures ReadSize(b[p..]) == 0 {
      assert p == 0;
    }
  }

  lemma SlotValue(n: nat)
    requires n < USIZE
    ensures ReadSize(SizeWord(n)[0..]) == n
  {
    assert SizeWord(n)[0..] == SizeWord(n);
    SizeWordReadBack(n, SizeWord(n));
  }

  /** `head_size` plus a word is within the head slots when there is a gap. */
  lemma GapLeavesRoom(ps: seq<Part>, ts: seq<AbiType>, g: nat)
    requires PartsFit(ps, ts) && AlignedParts(ps) && g < |ts| && Gap(ts[g])
    ensures HeadSize(ps) + WORD <= Sum(Rooms(ts))
  {
    HeadSizeOfAll(ps, ts);
    HeadSizeAligned(ps);
    AllRoomsAligned(ts);
    NextWord(HeadSize(ps), Sum(Rooms(ts)));
  }

  lemma AllRoomsAligned(ts: seq<AbiType>)
    ensures Sum(Rooms(ts)) % WORD == 0
  {
    RoomsBounds(ts, |ts|);
    assert Rooms(ts)[..|ts|] == Rooms(ts);
  }

  lemma NextWord(a: nat, b: nat)
    requires a < b && a % WORD == 0 && b % WORD == 0
    ensures a + WORD <= b
  {}

  lemma RoomWithin(ts: seq<AbiType>, q: nat)
    requires q < |ts|
    ensures Room(ts[q]) <= Sum(Rooms(ts))
  {
    SumPrefix(Rooms(ts), q);
    SumGrows(Rooms(ts), q + 1, |ts|);
    assert Rooms(ts)[..|ts|] == Rooms(ts);
  }

  lemma {:induction false} ZeroCalm(t: AbiType)
    requires WellSized(t) && IsStaticType(t) && |Encode(Zero(t))| < USIZE
    ensures Calm(Encode(Zero(t)))
  {
    if t.TWord? {
      ZeroWordCalm(Encode(Zero(t)));
    } else {
      ZeroTyped(t);
      var v, ts := Zero(t), t.members;
      var ps := PartsOf(v);
      PartsOfFit(v, t);
      PartsAligned(v, t);
      assert MembersOf(v, t) == ts;
      AreaSize(ps, ts);
      assert Encode(v) == Concat(Area(ps));
      forall i | 0 <= i < |ts|
        ensures ps[i].isStatic && ps[i].enc == Encode(Zero(ts[i])) && |ps[i].enc| <= Sum(Rooms(ts))
      {
        assert PartOf(ps[i], ts[i]);
        RoomWithin(ts, i);
      }
      NoTails(ps, |ps|);
      forall i | 0 <= i < |ts| ensures Calm(ps[i].enc) {
        ZeroCalm(ts[i]);
      }
      StaticAreaCalm(ps, ts);
    }
  }

  /** In a static area a slot belongs to a gap, and holds `head_size`. */
  lemma {:induction false} StaticAreaCalm(ps: seq<Part>, ts: seq<AbiType>)
    requires PartsFit(ps, ts) && AlignedParts(ps) && |Concat(Area(ps))| == Sum(Rooms(ts)) < USIZE
    requires forall i :: 0 <= i < |ps| ==> ps[i].isStatic && Calm(ps[i].enc)
    ensures Calm(Concat(Area(ps)))
  {
    var area := Concat(Area(ps));
    AreaAligned(ps);
    forall p: nat | p % WORD == 0 && p + WORD <= |area|
      ensures ReadSize(area[p..]) % WORD == 0 && ReadSize(area[p..]) + WORD <= |area|
    {
      var q, off := WordIn(Area(ps), p);
      StaticSlotCalm(ps, ts, q, off);
    }
  }

  lemma StaticSlotCalm(ps: seq<Part>, ts: seq<AbiType>, q: nat, off: nat)
    requires PartsFit(ps, ts) && AlignedParts(ps) && Sum(Rooms(ts)) < USIZE
    requires forall i :: 0 <= i < |ps| ==> ps[i].isStatic && Calm(ps[i].enc)
    requires q < |Area(ps)| && off % WORD == 0 && off + WORD <= |Area(ps)[q]|
    ensures ReadSize(Area(ps)[q][off..]) % WORD == 0 && ReadSize(Area(ps)[q][off..]) + WORD <= Sum(Rooms(ts))
  {
    assert forall i :: |ps| <= i < |Area(ps)| ==> Area(ps)[i] == TailOf(ps[i - |ps|]) == [];
    assert Area(ps)[q] == HeadOf(ps[q], TailOffset(ps, q)) && PartOf(ps[q], ts[q]);
    if InHead(ps[q]) {
      RoomWithin(ts, q);
      CalmWord(ps[q].enc, off, Sum(Rooms(ts)));
    } else {
      NoTails(ps, q);
      GapLeavesRoom(ps, ts, q);
      HeadSizeAligned(ps);
      SlotWordCalm(HeadSize(ps), off, Sum(Rooms(ts)));
    }
  }

  lemma CalmWord(b: Bytes, off: nat, room: nat)
    requires Calm(b) && off % WORD == 0 && off + WORD <= |b| <= room
    ensures ReadSize(b[off..]) % WORD == 0 && ReadSize(b[off..]) + WORD <= room
  {}

  lemma SlotWordCalm(n: nat, off: nat, room: nat)
    requires n < USIZE && n % WORD == 0 && n + WORD <= room && off + WORD <= |SizeWord(n)|
    ensures ReadSize(SizeWord(n)[off..]) % WORD == 0 && ReadSize(SizeWord(n)[off..]) + WORD <= room
  {
    SlotValue(n);
  }

  // ---- misread byte strings and lists ----

  lemma {:induction false} TailStartGrows(ps: seq<Part>, i: nat, j: nat)
    requires i <= j <= |ps|
    ensures StartOf(TailPieces(ps), i) <= StartOf(TailPieces(ps), j)
    ensures i < j && !ps[i].isStatic ==> StartOf(TailPieces(ps), i) + |ps[i].enc| <= StartOf(TailPieces(ps), j)
  {
    if i < j {
      TailStartGrows(ps, i, j - 1);
      ConcatSplit(TailPieces(ps), j - 1);
    }
  }

  /** The slot of item `q`, read as the offset of item `j`, points at least a word before `j`. */
  lemma SlotPointsBefore(ps: seq<Part>, ts: seq<AbiType>, q: nat, j: nat)
    requires PartsFit(ps, ts) && AlignedParts(ps) && q <= j < |ts| && !InHead(ps[q])
    requires q < j || exists g :: 0 <= g < |ts| && Gap(ts[g])
    ensures TailOffset(ps, q) + WORD <= TailPos(ps, j) && TailOffset(ps, q) % WORD == 0
  {
    assert PartOf(ps[q], ts[q]);
    TailStartGrows(ps, q, j);
    TailPosIs(ps, ts, j);
    HeadSizeAligned(ps);
    AreaAligned(ps);
    StartAligned(TailPieces(ps), q);
    AddAligned(HeadSize(ps), StartOf(TailPieces(ps), q));
    HeadSizeOfAll(ps, ts);
    if g :| 0 <= g < |ts| && Gap(ts[g]) {
      GapLeavesRoom(ps, ts, g);
    }
  }

  /** What the cursor finds for item `j`, up to its slot. */
  lemma FoundBefore(ps: seq<Part>, ts: seq<AbiType>, j: nat, c: nat)
    requires PartsFit(ps, ts) && AlignedParts(ps) && j < |ts| && !IsStaticType(ts[j]) && |Concat(Area(ps))| < USIZE
    requires forall i :: 0 <= i < |ps| && ps[i].isStatic ==> Calm(ps[i].enc)
    requires c % WORD == 0 && c <= HeadPos(ps, j) && (c < HeadPos(ps, j) || exists g :: 0 <= g < |ts| && Gap(ts[g]))
    ensures c + WORD <= |Concat(Area(ps))|
    ensures var a := ReadSize(Concat(Area(ps))[c..]); a % WORD == 0 && a + WORD <= TailPos(ps, j)
  {
    SlotEnds(ps, ts, j);
    AreaAligned(ps);
    var q, off := WordIn(Area(ps), c);
    OwnerUpTo(Area(ps), q, j, c, off);
    assert Area(ps)[q] == HeadOf(ps[q], TailOffset(ps, q)) && PartOf(ps[q], ts[q]);
    TailPosIs(ps, ts, j);
    if InHead(ps[q]) {
      RoomWithin(ts, q);
    } else {
      if q == j {
        assert c == HeadPos(ps, j);
      }
      SlotPointsBefore(ps, ts, q, j);
      TailPosInside(ps, ts, j);
      SlotValue(TailOffset(ps, q));
    }
  }

  lemma SlotEnds(ps: seq<Part>, ts: seq<AbiType>, j: nat)
    requires PartsFit(ps, ts) && AlignedParts(ps) && j < |ts| && !IsStaticType(ts[j])
    ensures HeadPos(ps, j) + WORD == HeadPos(ps, j + 1) <= |Concat(Area(ps))| && HeadPos(ps, j) % WORD == 0
  {
    assert PartOf(ps[j], ts[j]);
    assert Area(ps)[j] == HeadOf(ps[j], TailOffset(ps, j));
    ConcatSplit(Area(ps), j);
    ConcatFront(Area(ps), j + 1);
    AreaAligned(ps);
    StartAligned(Area(ps), j);
  }

  lemma TailPosInside(ps: seq<Part>, ts: seq<AbiType>, j: nat)
    requires PartsFit(ps, ts) && j < |ts|
    ensures TailPos(ps, j) <= |Concat(Area(ps))|
  {
    ConcatFront(Area(ps), |ps| + j);
  }

  /** The owner of a position is not behind a piece that starts there or later. */
  lemma {:induction false} OwnerUpTo(pieces: seq<Bytes>, q: nat, j: nat, p: nat, off: nat)
    requires q < |pieces| && j < |pieces| && p == StartOf(pieces, q) + off && p <= StartOf(pieces, j) && 0 < |pieces[j]|
    ensures q <= j && (q == j ==> off == 0)
  {
    if q > j {
      StartsGrow(pieces, j + 1, q);
      ConcatSplit(pieces, j);
    }
  }

  lemma {:induction false} StartsGrow<T>(pieces: seq<seq<T>>, i: nat, j: nat)
    requires i <= j <= |pieces|
    ensures StartOf(pieces, i) <= StartOf(pieces, j)
  {
    if i < j {
      StartsGrow(pieces, i, j - 1);
      ConcatSplit(pieces, j - 1);
    }
  }

  lemma {:induction false} SameStarts<T>(xs: seq<seq<T>>, ys: seq<seq<T>>, k: nat)
    requires k <= |xs| && k <= |ys| && forall i :: 0 <= i < k ==> |xs[i]| == |ys[i]|
    ensures StartOf(xs, k) == StartOf(ys, k)
  {
    if k > 0 {
      SameStarts(xs, ys, k - 1);
      ConcatSplit(xs, k - 1);
      ConcatSplit(ys, k - 1);
    }
  }

  lemma TwinPieces(ps: seq<Part>, qs: seq<Part>, j: nat, i: nat)
    requires Twins(ps, qs, j) && !ps[j].isStatic && i < |ps| + j
    ensures |Area(ps)[i]| == |Area(qs)[i]|
    ensures i <= j || i >= |ps| || InHead(ps[i]) ==> Area(ps)[i] == Area(qs)[i]
  {
    if i < |ps| {
      assert Area(ps)[i] == HeadOf(ps[i], TailOffset(ps, i)) && Area(qs)[i] == HeadOf(qs[i], TailOffset(qs, i));
      if i <= j {
        TwinOffsets(ps, qs, j, i);
      }
    } else {
      assert Area(ps)[i] == TailOf(ps[i - |ps|]) && Area(qs)[i] == TailOf(qs[i - |ps|]);
    }
  }

  lemma TwinWord(ps: seq<Part>, qs: seq<Part>, j: nat, q: nat, off: nat)
    requires Twins(ps, qs, j) && !ps[j].isStatic && q < |ps| + j && off + WORD <= |Area(ps)[q]|
             && Area(ps)[q] == Area(qs)[q]
    ensures var p := StartOf(Area(ps), q) + off;
            && p + WORD <= |Concat(Area(qs))|
            && ReadSize(Concat(Area(qs))[p..]) == ReadSize(Area(ps)[q][off..])
  {
    forall i | 0 <= i < q ensures |Area(ps)[i]| == |Area(qs)[i]| {
      TwinPieces(ps, qs, j, i);
    }
    SameStarts(Area(ps), Area(qs), q);
    ConcatAt(Area(qs), q);
    PieceWord(Concat(Area(qs)), StartOf(Area(qs), q), Area(qs)[q], off);
  }

  lemma OwnerBefore(pieces: seq<Bytes>, q: nat, j: nat, p: nat, off: nat)
    requires q < |pieces| && j <= |pieces| && p == StartOf(pieces, q) + off && p < StartOf(pieces, j)
    ensures q < j
  {
    if q >= j {
      StartsGrow(pieces, j, q);
    }
  }

  lemma LateSlot(ps: seq<Part>, ts: seq<AbiType>, j: nat, q: nat)
    requires PartsFit(ps, ts) && AlignedParts(ps) && j < |ts| && q < |ts| && !IsStaticType(ts[j]) && !InHead(ps[q])
             && |Concat(Area(ps))| < USIZE
    ensures ReadSize(Area(ps)[q][0..]) != 0
  {
    assert Area(ps)[q] == HeadOf(ps[q], TailOffset(ps, q)) && PartOf(ps[j], ts[j]);
    HeadSizeOfAll(ps, ts);
    TailPosIs(ps, ts, q);
    TailPosInside(ps, ts, q);
    HeadSizePositive(ps, j);
    SlotValue(TailOffset(ps, q));
  }

  lemma {:induction false} HeadSizePositive(ps: seq<Part>, j: nat)
    requires j < |ps| && !ps[j].isStatic
    ensures HeadSize(ps) >= WORD
  {
    if j < |ps| - 1 {
      HeadSizePositive(ps[..|ps| - 1], j);
    }
  }

  /** Before item `j`'s own bytes, a zero word of one twin is a zero word of the other. */
  lemma ZeroWordShared(ps: seq<Part>, qs: seq<Part>, ts: seq<AbiType>, j: nat, a: nat)
    requires Twins(ps, qs, j) && PartsFit(ps, ts) && AlignedParts(ps) && !IsStaticType(ts[j])
             && |Concat(Area(ps))| < USIZE
    requires a % WORD == 0 && a + WORD <= TailPos(ps, j) && a + WORD <= |Concat(Area(ps))|
    requires ReadSize(Concat(Area(ps))[a..]) == 0
    ensures a + WORD <= |Concat(Area(qs))| && ReadSize(Concat(Area(qs))[a..]) == 0
  {
    AreaAligned(ps);
    var q, off := WordBefore(Area(ps), a, |ps| + j);
    ZeroPieceShared(ps, qs, ts, j, q, off);
  }

  /** The piece of an aligned word that ends before piece `j` starts. */
  lemma WordBefore(pieces: seq<Bytes>, p: nat, j: nat) returns (q: nat, off: nat)
    requires Aligned(pieces) && j <= |pieces| && p % WORD == 0 && p + WORD <= |Concat(pieces)| && p < StartOf(pieces, j)
    ensures q < j && p == StartOf(pieces, q) + off && off % WORD == 0 && off + WORD <= |pieces[q]|
    ensures ReadSize(Concat(pieces)[p..]) == ReadSize(pieces[q][off..])
  {
    q, off := WordIn(pieces, p);
    OwnerBefore(pieces, q, j, p, off);
  }

  lemma ZeroPieceShared(ps: seq<Part>, qs: seq<Part>, ts: seq<AbiType>, j: nat, q: nat, off: nat)
    requires Twins(ps, qs, j) && PartsFit(ps, ts) && AlignedParts(ps) && !IsStaticType(ts[j])
             && |Concat(Area(ps))| < USIZE
    requires q < |ps| + j && off + WORD <= |Area(ps)[q]| && ReadSize(Area(ps)[q][off..]) == 0
    ensures var p := StartOf(Area(ps), q) + off;
            p + WORD <= |Concat(Area(qs))| && ReadSize(Concat(Area(qs))[p..]) == 0
  {
    assert PartOf(ps[j], ts[j]);
    TwinPieces(ps, qs, j, q);
    if j < q < |ps| && !InHead(ps[q]) {
      assert Area(ps)[q] == HeadOf(ps[q], TailOffset(ps, q));
      LateSlot(ps, ts, j, q);
    }
    TwinWord(ps, qs, j, q, off);
  }

  lemma TwinSlot(ps: seq<Part>, qs: seq<Part>, j: nat, c: nat)
    requires Twins(ps, qs, j) && !ps[j].isStatic && AlignedParts(ps) && c % WORD == 0 && c <= HeadPos(ps, j)
    requires c + WORD <= |Concat(Area(ps))|
    ensures c + WORD <= |Concat(Area(qs))| && ReadSize(Concat(Area(ps))[c..]) == ReadSize(Concat(Area(qs))[c..])
  {
    AreaAligned(ps);
    assert Area(ps)[j] == HeadOf(ps[j], TailOffset(ps, j));
    var q, off := WordUpTo(Area(ps), c, j);
    TwinPieces(ps, qs, j, q);
    TwinWord(ps, qs, j, q, off);
  }

  /** The piece of an aligned word that starts no later than piece `j`. */
  lemma WordUpTo(pieces: seq<Bytes>, p: nat, j: nat) returns (q: nat, off: nat)
    requires Aligned(pieces) && p % WORD == 0 && p + WORD <= |Concat(pieces)|
    requires j < |pieces| && 0 < |pieces[j]| && p <= StartOf(pieces, j)
    ensures q <= j && p == StartOf(pieces, q) + off && off + WORD <= |pieces[q]|
    ensures ReadSize(Concat(pieces)[p..]) == ReadSize(pieces[q][off..])
  {
    q, off := WordIn(pieces, p);
    OwnerUpTo(pieces, q, j, p, off);
  }

  ghost predicate CalmItems(v: Abi)
    requires v.AArray?
  {
    forall i :: 0 <= i < |v.items| && IsStatic(v.items[i]) ==> Calm(Encode(v.items[i]))
  }

  /** A byte string or list behind a drift or beside a gap is misread in one of the two. */
  lemma LengthItemMisread(v: Abi, w: Abi, t: AbiType, j: nat) returns (bad: Abi)
    requires Pair(v, w, t, j) && CalmItems(v) && |Encode(v)| < USIZE
    requires var u := MembersOf(v, t)[j]; u.TDynamic? || u.TList?
    requires || (exists i :: 0 <= i < j && Drifts(MembersOf(v, t)[i]))
             || (exists g :: 0 <= g < |v.items| && Gap(MembersOf(v, t)[g]))
    ensures (bad == v || bad == w) && Misread(bad)
  {
    var c, a := PairLengthWord(v, w, t, MembersOf(v, t), j);
    bad := LengthChoice(v, w, t, MembersOf(v, t)[j], j, c, a);
  }

  lemma PairLengthWord(v: Abi, w: Abi, t: AbiType, us: seq<AbiType>, j: nat) returns (c: nat, a: nat)
    requires Pair(v, w, t, j) && us == MembersOf(v, t) && CalmItems(v) && |Encode(v)| < USIZE
    requires us[j].TDynamic? || us[j].TList?
    requires (exists i :: 0 <= i < j && Drifts(us[i])) || exists g :: 0 <= g < |us| && Gap(us[g])
    ensures c == Cursor(us, j)
    ensures var p, q := Concat(Area(PartsOf(v))), Concat(Area(PartsOf(w)));
            && c + WORD <= |p| && c + WORD <= |q| && a == ReadSize(p[c..]) == ReadSize(q[c..]) && a + WORD <= |p|
            && (ReadSize(p[a..]) == 0 ==> a + WORD <= |q| && ReadSize(q[a..]) == 0)
  {
    PairTwins(v, w, t, j);
    PartsAligned(v, t);
    c, a := LengthWord(PartsOf(v), PartsOf(w), us, j);
  }

  lemma LengthChoice(v: Abi, w: Abi, t: AbiType, u: AbiType, j: nat, c: nat, a: nat) returns (bad: Abi)
    requires Pair(v, w, t, j) && u == MembersOf(v, t)[j] && (u.TDynamic? || u.TList?) && c == Cursor(MembersOf(v, t), j)
    requires var p, q := Concat(Area(PartsOf(v))), Concat(Area(PartsOf(w)));
             && c + WORD <= |p| && c + WORD <= |q| && a == ReadSize(p[c..]) == ReadSize(q[c..]) && a + WORD <= |p|
             && (ReadSize(p[a..]) == 0 ==> a + WORD <= |q| && ReadSize(q[a..]) == 0)
    ensures (bad == v || bad == w) && Misread(bad)
  {
    assert MembersOf(v, t) == MembersOf(w, t);
    if ReadSize(Concat(Area(PartsOf(v)))[a..]) == 0 {
      bad := w;
      OtherLength(w, t, u, j, c, Concat(Area(PartsOf(w))), 1);
    } else {
      bad := v;
      OtherLength(v, t, u, j, c, Concat(Area(PartsOf(v))), 0);
    }
  }

  /** The item's length is `n`, and the cursor leads to another number. */
  lemma OtherLength(v: Abi, t: AbiType, u: AbiType, j: nat, c: nat, area: Bytes, n: nat)
    requires v.AArray? && WellSized(t) && HasType(v, t) && j < |v.items| && u == MembersOf(v, t)[j]
    requires (u.TDynamic? || u.TList?) && v.items[j] == (if n == 0 then Zero(u) else One(u)) && n <= 1
    requires c == Cursor(MembersOf(v, t), j) && area == Concat(Area(PartsOf(v)))
    requires c + WORD <= |area| && ReadSize(area[c..]) + WORD <= |area| && ReadSize(area[ReadSize(area[c..])..]) != n
    ensures Misread(v)
  {
    LengthMisread(v, t, j, c, area);
  }

  /** The cursor for item `j` leads both twins to a word before `j`'s own bytes. */
  lemma LengthWord(ps: seq<Part>, qs: seq<Part>, ts: seq<AbiType>, j: nat) returns (c: nat, a: nat)
    requires Twins(ps, qs, j) && PartsFit(ps, ts) && AlignedParts(ps) && |Concat(Area(ps))| < USIZE
             && !IsStaticType(ts[j])
    requires forall i :: 0 <= i < |ps| && ps[i].isStatic ==> Calm(ps[i].enc)
    requires (exists i :: 0 <= i < j && Drifts(ts[i])) || exists g :: 0 <= g < |ts| && Gap(ts[g])
    ensures c == Cursor(ts, j) && c + WORD <= |Concat(Area(ps))| && c + WORD <= |Concat(Area(qs))|
    ensures a == ReadSize(Concat(Area(ps))[c..]) == ReadSize(Concat(Area(qs))[c..]) && a + WORD <= |Concat(Area(ps))|
    ensures ReadSize(Concat(Area(ps))[a..]) == 0 ==>
            a + WORD <= |Concat(Area(qs))| && ReadSize(Concat(Area(qs))[a..]) == 0
  {
    assert PartOf(ps[j], ts[j]);
    c := LengthCursor(ps, ts, j);
    FoundBefore(ps, ts, j, c);
    TailPosInside(ps, ts, j);
    TwinSlot(ps, qs, j, c);
    a := ReadSize(Concat(Area(ps))[c..]);
    if ReadSize(Concat(Area(ps))[a..]) == 0 {
      ZeroWordShared(ps, qs, ts, j, a);
    }
  }

  lemma LengthCursor(ps: seq<Part>, ts: seq<AbiType>, j: nat) returns (c: nat)
    requires PartsFit(ps, ts) && j < |ts|
    requires (exists i :: 0 <= i < j && Drifts(ts[i])) || exists g :: 0 <= g < |ts| && Gap(ts[g])
    ensures c == Cursor(ts, j) && c % WORD == 0 && c <= HeadPos(ps, j)
    ensures c < HeadPos(ps, j) || exists g :: 0 <= g < |ts| && Gap(ts[g])
  {
    c := Cursor(ts, j);
    HeadStart(ps, ts, j);
    RoomsBounds(ts, j);
  }

  // ---- nested harm ----

  /** An item that is found and does not read itself back spoils the array. */
  lemma {:induction false} NestedMisread(v: Abi, t: AbiType, i: nat)
    requires v.AArray? && WellSized(t) && HasType(v, t) && i < |v.items|
    requires Level(MembersOf(v, t)) && Carries(MembersOf(v, t)[i]) && Misread(v.items[i])
    ensures Misread(v)
  {
    forall rest: Bytes | |Encode(v) + rest| < USIZE ensures !ReadsSame(Decode(v, Encode(v) + rest), v) {
      if ReadsSame(Decode(v, Encode(v) + rest), v) {
        EachItemReads(v, t, Encode(v) + rest, i);
        BodyIs(v, rest);
        PartsOfFit(v, t);
        FoundItemReads(PartsOf(v), MembersOf(v, t), v.items[i], Concat(Area(PartsOf(v))) + rest, i);
      }
    }
  }

  lemma FoundItemReads(ps: seq<Part>, ts: seq<AbiType>, x: Abi, body: Bytes, i: nat)
    requires PartsFit(ps, ts) && Level(ts) && i < |ts| && Carries(ts[i]) && WellSized(ts[i]) && HasType(x, ts[i])
    requires ps[i] == Part(IsStatic(x), Encode(x), TypesOf(x)) && Concat(Area(ps)) <= body && |body| < USIZE
    requires ReadsAt(x, body, Cursor(ts, i), x)
    ensures !Misread(x)
  {
    LocateItem(ps, ts, x, x, body, i);
    var b := body[ChildPos(ps, i)..];
    assert b == Encode(x) + b[|Encode(x)|..];
  }

  lemma {:induction false} HollowIsSane(t: AbiType)
    requires !Carries(t)
    ensures Sane(t)
  {
    forall i | 0 <= i < |t.members| ensures Sane(t.members[i]) && IsStaticType(t.members[i]) && !Carries(t.members[i]) {
      HollowIsSane(t.members[i]);
      TypeSizes(t.members[i]);
    }
  }

  // ---- the exact condition ----

  /** No tuple has a member that is a tuple and not static. */
  ghost predicate Flat(t: AbiType) {
    match t
    case TList(e) => Flat(e)
    case TTuple(ts) => forall i :: 0 <= i < |ts| ==> Flat(ts[i]) && (ts[i].TTuple? ==> IsStaticType(ts[i]))
    case _ => true
  }

  /** A bound for the encodings built here. */
  function Weight(t: AbiType): nat {
    match t
    case TList(e) => WORD + 2 * (WORD + Weight(e))
    case TTuple(ts) => Sum(seq(|ts|, i requires 0 <= i < |ts| => WORD + Weight(ts[i])))
    case _ => 2 * WORD
  }

  lemma {:induction false} AreaWeight(ps: seq<Part>, sizes: seq<nat>, k: nat)
    requires k <= |ps| == |sizes| && forall i :: 0 <= i < |ps| ==> WORD + |ps[i].enc| <= sizes[i]
    ensures StartOf(HeadPieces(ps), k) + StartOf(TailPieces(ps), k) <= Sum(sizes[..k])
  {
    if k > 0 {
      AreaWeight(ps, sizes, k - 1);
      ConcatSplit(HeadPieces(ps), k - 1);
      ConcatSplit(TailPieces(ps), k - 1);
      SumPrefix(sizes, k - 1);
    }
  }

  lemma ArrayWeight(v: Abi, sizes: seq<nat>)
    requires v.AArray? && |v.items| == |sizes| && forall i :: 0 <= i < |sizes| ==>
             WORD + |Encode(v.items[i])| <= sizes[i]
    ensures |Encode(v)| <= Base(v) + Sum(sizes)
  {
    var ps := PartsOf(v);
    AreaWeight(ps, sizes, |ps|);
    assert sizes[..|ps|] == sizes;
    ConcatAppend(HeadPieces(ps), TailPieces(ps));
    StartOfEnd(HeadPieces(ps));
    StartOfEnd(TailPieces(ps));
  }

  function Weights(ts: seq<AbiType>): (ws: seq<nat>)
    ensures |ws| == |ts| && forall i :: 0 <= i < |ts| ==> ws[i] == WORD + Weight(ts[i])
  {
    seq(|ts|, i requires 0 <= i < |ts| => WORD + Weight(ts[i]))
  }

  lemma TupleWeight(xs: seq<Abi>, ts: seq<AbiType>)
    requires |xs| == |ts| && forall i :: 0 <= i < |xs| ==> |Encode(xs[i])| <= Weight(ts[i])
    ensures |Encode(AArray(xs, false))| <= Weight(TTuple(ts))
  {
    ArrayWeight(AArray(xs, false), Weights(ts));
    assert Weights(ts) == seq(|ts|, i requires 0 <= i < |ts| => WORD + Weight(ts[i]));
  }

  lemma ListWeight(xs: seq<Abi>, e: AbiType)
    requires |xs| <= 2 && forall i :: 0 <= i < |xs| ==> |Encode(xs[i])| <= Weight(e)
    ensures |Encode(AArray(xs, true))| <= Weight(TList(e))
  {
    var sizes := seq(|xs|, i => WORD + Weight(e));
    ArrayWeight(AArray(xs, true), sizes);
    SumPrefixes(sizes, WORD + Weight(e));
  }

  lemma SumPrefixes(sizes: seq<nat>, x: nat)
    requires |sizes| <= 2 && forall i :: 0 <= i < |sizes| ==> sizes[i] == x
    ensures Sum(sizes) <= 2 * x
  {
    if |sizes| == 1 {
      assert sizes[1..] == [];
    } else if |sizes| == 2 {
      assert sizes[1..][1..] == [];
    }
  }

  lemma {:induction false} ZeroWeight(t: AbiType)
    requires WellSized(t)
    ensures |Encode(Zero(t))| <= Weight(t)
  {
    match t
    case TList(e) => ListWeight([], e);
    case TTuple(ts) =>
      forall i | 0 <= i < |ts| ensures |Encode(Zero(ts[i]))| <= Weight(ts[i]) {
        ZeroWeight(ts[i]);
      }
      TupleWeight(ZeroItems(ts), ts);
    case _ =>
  }

  lemma {:induction false} OneWeight(t: AbiType)
    requires WellSized(t) && Carries(t)
    ensures |Encode(One(t))| <= Weight(t)
  {
    match t
    case TList(e) =>
      ZeroWeight(e);
      ListWeight([Zero(e)], e);
    case TTuple(ts) =>
      var k := FirstCarrier(ts, 0);
      OneWeight(ts[k]);
      forall i | 0 <= i < |ts| ensures |Encode(One(t).items[i])| <= Weight(ts[i]) {
        ZeroWeight(ts[i]);
      }
      TupleWeight(One(t).items, ts);
    case _ =>
  }

  /** A small value of the type that does not read itself back. */
  ghost predicate Witness(v: Abi, t: AbiType) {
    HasType(v, t) && Misread(v) && |Encode(v)| <= Weight(t)
  }

  /** The zero tuple with item `j` replaced. */
  function WithItem(ts: seq<AbiType>, j: nat, x: Abi): Abi
    requires j < |ts|
  {
    AArray(ZeroItems(ts)[j := x], false)
  }

  lemma WithItemFits(ts: seq<AbiType>, j: nat, x: Abi)
    requires j < |ts| && WellSized(TTuple(ts)) && HasType(x, ts[j]) && |Encode(x)| <= Weight(ts[j])
    ensures HasType(WithItem(ts, j, x), TTuple(ts)) && |Encode(WithItem(ts, j, x))| <= Weight(TTuple(ts))
    ensures MembersOf(WithItem(ts, j, x), TTuple(ts)) == ts
  {
    var xs := ZeroItems(ts)[j := x];
    forall i | 0 <= i < |ts| ensures HasType(xs[i], ts[i]) && |Encode(xs[i])| <= Weight(ts[i]) {
      ZeroTyped(ts[i]);
      ZeroWeight(ts[i]);
    }
    TupleWeight(xs, ts);
  }

  lemma TuplePair(ts: seq<AbiType>, j: nat)
    requires j < |ts| && WellSized(TTuple(ts)) && Carries(ts[j])
    ensures Pair(WithItem(ts, j, Zero(ts[j])), WithItem(ts, j, One(ts[j])), TTuple(ts), j)
    ensures |Encode(WithItem(ts, j, Zero(ts[j])))| <= Weight(TTuple(ts))
            && |Encode(WithItem(ts, j, One(ts[j])))| <= Weight(TTuple(ts))
    ensures MembersOf(WithItem(ts, j, Zero(ts[j])), TTuple(ts)) == ts
  {
    ZeroTyped(ts[j]);
    ZeroWeight(ts[j]);
    OneTyped(ts[j]);
    OneWeight(ts[j]);
    WithItemFits(ts, j, Zero(ts[j]));
    WithItemFits(ts, j, One(ts[j]));
  }

  lemma ZeroTupleCalm(ts: seq<AbiType>, j: nat)
    requires j < |ts| && WellSized(TTuple(ts)) && Weight(TTuple(ts)) < USIZE
    ensures CalmItems(WithItem(ts, j, Zero(ts[j])))
  {
    var v := WithItem(ts, j, Zero(ts[j]));
    forall i | 0 <= i < |ts| && IsStatic(v.items[i]) ensures Calm(Encode(v.items[i])) {
      ZeroTyped(ts[i]);
      Geometry(v.items[i], ts[i]);
      ZeroWeight(ts[i]);
      MemberWeight(ts, i);
      ZeroCalm(ts[i]);
    }
  }

  lemma MemberWeight(ts: seq<AbiType>, i: nat)
    requires i < |ts|
    ensures Weight(ts[i]) <= Weight(TTuple(ts))
  {
    SumPrefix(Weights(ts), i);
    SumGrows(Weights(ts), i + 1, |ts|);
    assert Weights(ts)[..|ts|] == Weights(ts) == seq(|ts|, i requires 0 <= i < |ts| => WORD + Weight(ts[i]));
  }

  lemma {:induction false} UnlevelTuple(ts: seq<AbiType>) returns (bad: Abi)
    requires WellSized(TTuple(ts)) && Flat(TTuple(ts)) && !Level(ts) && Weight(TTuple(ts)) < USIZE
    ensures Witness(bad, TTuple(ts))
  {
    var j := Victim(ts);
    TuplePair(ts, j);
    var v, w := WithItem(ts, j, Zero(ts[j])), WithItem(ts, j, One(ts[j]));
    if IsStaticType(ts[j]) {
      var i :| 0 <= i < j && Drifts(ts[i]);
      bad := DriftedStaticItem(v, w, TTuple(ts), i, j);
    } else {
      ZeroTupleCalm(ts, j);
      bad := LengthItemMisread(v, w, TTuple(ts), j);
    }
  }

  /** A member that an unlevel tuple misreads. */
  lemma Victim(ts: seq<AbiType>) returns (j: nat)
    requires Flat(TTuple(ts)) && !Level(ts)
    ensures j < |ts| && Carries(ts[j])
    ensures if IsStaticType(ts[j]) then exists i :: 0 <= i < j && Drifts(ts[i])
            else ts[j].TDynamic? || ts[j].TList?
    ensures (exists i :: 0 <= i < j && Drifts(ts[i])) || exists g :: 0 <= g < |ts| && Gap(ts[g])
  {
    if i, k :| 0 <= i < k < |ts| && Drifts(ts[i]) && Carries(ts[k]) {
      j := k;
    } else {
      var i, g :| 0 <= i < |ts| && 0 <= g < |ts| && !IsStaticType(ts[i]) && Gap(ts[g]);
      j := i;
      TypeSizes(ts[j]);
    }
  }

  lemma UnlevelList(e: AbiType) returns (bad: Abi)
    requires WellSized(e) && Drifts(e) && Carries(e)
    ensures Witness(bad, TList(e))
  {
    var v, w := AArray([Zero(e), Zero(e)], true), AArray([Zero(e), One(e)], true);
    ListPair(e, v, w);
    bad := DriftedStaticItem(v, w, TList(e), 0, 1);
  }

  lemma ListPair(e: AbiType, v: Abi, w: Abi)
    requires WellSized(e) && Carries(e) && v == AArray([Zero(e), Zero(e)], true) && w == AArray([Zero(e), One(e)], true)
    ensures Pair(v, w, TList(e), 1) && |Encode(v)| <= Weight(TList(e)) && |Encode(w)| <= Weight(TList(e))
    ensures MembersOf(v, TList(e)) == [e, e]
  {
    ZeroTyped(e);
    OneTyped(e);
    ZeroWeight(e);
    OneWeight(e);
    TwoInList(e, Zero(e), Zero(e));
    TwoInList(e, Zero(e), One(e));
  }

  lemma TwoInList(e: AbiType, x: Abi, y: Abi)
    requires HasType(x, e) && HasType(y, e) && |Encode(x)| <= Weight(e) && |Encode(y)| <= Weight(e)
    ensures HasType(AArray([x, y], true), TList(e)) && MembersOf(AArray([x, y], true), TList(e)) == [e, e]
    ensures |Encode(AArray([x, y], true))| <= Weight(TList(e))
  {
    ListWeight([x, y], e);
  }

  /** Every flat type that is not sane has a value that does not read itself back, whatever follows it. */
  lemma {:induction false} InsaneMisreads(t: AbiType) returns (bad: Abi)
    requires WellSized(t) && Flat(t) && !Sane(t) && Weight(t) < USIZE
    ensures Witness(bad, t)
  {
    match t
    case TList(e) =>
      if Sane(e) {
        bad := UnlevelList(e);
      } else {
        var x := InsaneMisreads(e);
        bad := AArray([x], true);
        NestedInList(e, x);
      }
    case TTuple(ts) =>
      if !Level(ts) {
        bad := UnlevelTuple(ts);
      } else {
        var i :| 0 <= i < |ts| && !Sane(ts[i]);
        MemberWeight(ts, i);
        var x := InsaneMisreads(ts[i]);
        bad := WithItem(ts, i, x);
        NestedInTuple(ts, i, x);
      }
  }

  lemma NestedInList(e: AbiType, x: Abi)
    requires WellSized(e) && !Sane(e) && Witness(x, e)
    ensures Witness(AArray([x], true), TList(e))
  {
    var v := AArray([x], true);
    ListWeight([x], e);
    if !Carries(e) {
      HollowIsSane(e);
    }
    TypeSizes(e);
    assert MembersOf(v, TList(e)) == [e];
    NestedMisread(v, TList(e), 0);
  }

  lemma NestedInTuple(ts: seq<AbiType>, i: nat, x: Abi)
    requires WellSized(TTuple(ts)) && Level(ts) && i < |ts| && !Sane(ts[i]) && Witness(x, ts[i])
    ensures Witness(WithItem(ts, i, x), TTuple(ts))
  {
    WithItemFits(ts, i, x);
    if !Carries(ts[i]) {
      HollowIsSane(ts[i]);
    }
    NestedMisread(WithItem(ts, i, x), TTuple(ts), i);
  }

  /** Every receiver that fits reads every value of the type from its encoding, whatever follows. */
  ghost predicate RoundTrips(t: AbiType) {
    forall r, v, b :: HasType(r, t) && HasType(v, t) && Encode(v) <= b && |b| < USIZE ==> ReadsBack(Decode(r, b), r, v)
  }

  /** A flat type round-trips if and only if it is sane. */
  lemma RoundTripsIffSane(t: AbiType)
    requires WellSized(t) && Flat(t) && Weight(t) < USIZE
    ensures RoundTrips(t) <==> Sane(t)
  {
    if Sane(t) {
      forall r, v, b | HasType(r, t) && HasType(v, t) && Encode(v) <= b && |b| < USIZE
        ensures ReadsBack(Decode(r, b), r, v)
      {
        RoundTrip(r, v, t, b);
      }
    } else {
      var v := InsaneMisreads(t);
      FitsItself(v);
      assert Encode(v) + [] == Encode(v);
      assert !ReadsBack(Decode(v, Encode(v)), v, v);
    }
  }
}
