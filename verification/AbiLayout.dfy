/** Where the head/tail scheme puts each child, and what the type map says of each word. */
module AbiLayout {
  import opened Words
  import opened Pieces
  import opened AbiCodec

  /** Every part has one type per word. */
  ghost predicate FlaggedParts(ps: seq<Part>) {
    forall i :: 0 <= i < |ps| ==> |ps[i].enc| == WORD * |ps[i].flags|
  }

  /** The part has at least a word of its own. */
  ghost predicate GoodPart(p: Part) { |p.enc| >= WORD }

  ghost predicate GoodParts(ps: seq<Part>) {
    forall i :: 0 <= i < |ps| ==> GoodPart(ps[i])
  }

  /** The head slot of child `i` and its tail, relative to the children area. */
  function HeadPos(ps: seq<Part>, i: nat): nat
    requires i <= |ps|
  {
    StartOf(Area(ps), i)
  }

  function TailPos(ps: seq<Part>, i: nat): nat
    requires i <= |ps|
  {
    StartOf(Area(ps), |ps| + i)
  }

  /** Where child `i`'s own encoding starts. */
  function ChildPos(ps: seq<Part>, i: nat): nat
    requires i < |ps|
  {
    if ps[i].isStatic then HeadPos(ps, i) else TailPos(ps, i)
  }

  lemma HeadPosStep(ps: seq<Part>, i: nat)
    requires GoodParts(ps) && i < |ps|
    ensures HeadPos(ps, i + 1) == HeadPos(ps, i) + HeadCount(ps[i])
  {
    assert GoodPart(ps[i]);
    assert Area(ps)[i] == HeadOf(ps[i], TailOffset(ps, i));
    ConcatSplit(Area(ps), i);
  }

  lemma {:induction false} HeadPosIsHeadSize(ps: seq<Part>, i: nat)
    requires GoodParts(ps) && i <= |ps|
    ensures HeadPos(ps, i) == HeadSize(ps[..i])
  {
    if i > 0 {
      HeadPosIsHeadSize(ps, i - 1);
      HeadPosStep(ps, i - 1);
      assert ps[..i][..i - 1] == ps[..i - 1];
    }
  }

  /** The number in an offset word is where the tail starts. */
  lemma OffsetIsTailPos(ps: seq<Part>, i: nat)
    requires GoodParts(ps) && i <= |ps|
    ensures TailOffset(ps, i) == TailPos(ps, i)
  {
    HeadPosIsHeadSize(ps, |ps|);
    assert ps[..|ps|] == ps;
    StartOfPrefix(HeadPieces(ps), TailPieces(ps), |ps|);
    StartOfEnd(HeadPieces(ps));
    StartOfAppend(HeadPieces(ps), TailPieces(ps), i);
  }

  /** Child `i`'s head slot, in a buffer that starts with the children area. */
  lemma HeadAt(ps: seq<Part>, body: Bytes, i: nat)
    requires i < |ps| && Concat(Area(ps)) <= body
    ensures At(body, HeadPos(ps, i), HeadOf(ps[i], TailOffset(ps, i)))
  {
    assert Area(ps)[i] == HeadOf(ps[i], TailOffset(ps, i));
    ConcatAt(Area(ps), i);
    AtPrefix(Concat(Area(ps)), body, HeadPos(ps, i), Area(ps)[i]);
  }

  lemma TailAt(ps: seq<Part>, body: Bytes, i: nat)
    requires i < |ps| && Concat(Area(ps)) <= body
    ensures At(body, TailPos(ps, i), TailOf(ps[i]))
  {
    assert Area(ps)[|ps| + i] == TailOf(ps[i]);
    ConcatAt(Area(ps), |ps| + i);
    AtPrefix(Concat(Area(ps)), body, TailPos(ps, i), Area(ps)[|ps| + i]);
  }

  /** Child `i` is at its position; a non-static one is announced by the offset word in its head slot. */
  lemma ChildAt(ps: seq<Part>, body: Bytes, i: nat)
    requires GoodParts(ps) && i < |ps| && Concat(Area(ps)) <= body
    ensures HeadPos(ps, i) + WORD <= |body|
    ensures !ps[i].isStatic ==> At(body, HeadPos(ps, i), SizeWord(TailPos(ps, i)))
    ensures At(body, ChildPos(ps, i), ps[i].enc)
  {
    assert GoodPart(ps[i]);
    OffsetIsTailPos(ps, i);
    HeadAt(ps, body, i);
    TailAt(ps, body, i);
  }

  // ---- word positions ----

  function HeadWordOf(ps: seq<Part>, i: nat): nat
    requires i <= |ps|
  {
    StartOf(FlagArea(ps), i)
  }

  function ChildWordOf(ps: seq<Part>, i: nat): nat
    requires i < |ps|
  {
    StartOf(FlagArea(ps), if ps[i].isStatic then i else |ps| + i)
  }

  lemma AreaScaled(ps: seq<Part>, k: nat)
    requires FlaggedParts(ps) && k <= 2 * |ps|
    ensures |Area(ps)| == |FlagArea(ps)| == 2 * |ps|
    ensures StartOf(Area(ps), k) == WORD * StartOf(FlagArea(ps), k)
  {
    forall i | 0 <= i < 2 * |ps| ensures |Area(ps)[i]| == WORD * |FlagArea(ps)[i]| {
      var p := ps[if i < |ps| then i else i - |ps|];
      assert |p.enc| == WORD * |p.flags|;
    }
    Scaled(Area(ps), FlagArea(ps), WORD, k);
  }

  lemma PositionsScaled(ps: seq<Part>, i: nat)
    requires FlaggedParts(ps) && i < |ps|
    ensures HeadPos(ps, i) == WORD * HeadWordOf(ps, i)
    ensures ChildPos(ps, i) == WORD * ChildWordOf(ps, i)
  {
    AreaScaled(ps, i);
    AreaScaled(ps, |ps| + i);
  }

  lemma AreaWords(ps: seq<Part>)
    requires FlaggedParts(ps)
    ensures |Concat(Area(ps))| == WORD * |Concat(FlagArea(ps))|
  {
    AreaScaled(ps, 2 * |ps|);
    StartOfEnd(Area(ps));
    StartOfEnd(FlagArea(ps));
  }

  /** The flags of child `i` sit where its bytes sit; a head slot without the child's bytes is flagged `TvOffset`. */
  lemma ChildFlagsAt(ps: seq<Part>, i: nat)
    requires FlaggedParts(ps) && i < |ps|
    ensures InHead(ps[i]) || !ps[i].isStatic ==> At(Concat(FlagArea(ps)), ChildWordOf(ps, i), ps[i].flags)
    ensures !InHead(ps[i]) ==> At(Concat(FlagArea(ps)), HeadWordOf(ps, i), [TvOffset])
  {
    var fs := FlagArea(ps);
    PieceAt(fs, i, HeadFlagsOf(ps[i]));
    if !ps[i].isStatic {
      PieceAt(fs, |ps| + i, TailFlagsOf(ps[i]));
    }
  }

  lemma PieceAt<T>(pieces: seq<seq<T>>, i: nat, p: seq<T>)
    requires i < |pieces| && pieces[i] == p
    ensures At(Concat(pieces), StartOf(pieces, i), p)
  {
    ConcatAt(pieces, i);
  }

  /** Every word of the children area is an offset head or lies in a child. */
  lemma AreaOwner(ps: seq<Part>, k: nat) returns (i: nat)
    requires FlaggedParts(ps) && k < |Concat(FlagArea(ps))|
    ensures i < |ps|
    ensures || ((InHead(ps[i]) || !ps[i].isStatic) && ChildWordOf(ps, i) <= k < ChildWordOf(ps, i) + |ps[i].flags|)
            || (!InHead(ps[i]) && k == HeadWordOf(ps, i))
  {
    var fs := FlagArea(ps);
    assert StartOf(fs, 0) == 0;
    var j := OwnerOf(fs, k, 0);
    i := if j < |ps| then j else j - |ps|;
    assert fs[j] == if j < |ps| then HeadFlagsOf(ps[i]) else TailFlagsOf(ps[i]);
  }

  // ---- whole values ----

  /** A value of a type without zero-length fixed arrays and empty tuples. */
  ghost predicate Typed(v: Abi, t: AbiType) { GoodType(t) && HasType(v, t) }

  lemma MemberTyped(v: Abi, t: AbiType, i: nat)
    requires v.AArray? && Typed(v, t) && i < |v.items|
    ensures t.TList? || (t.TTuple? && i < |t.members|)
    ensures Typed(v.items[i], MemberType(t, i))
  {}

  /** The byte at which the children area starts. */
  function Base(v: Abi): nat
    requires v.AArray?
  {
    if v.dynamicSize then WORD else 0
  }

  /** One entry of the type map per 32-byte word of the encoding, at every depth. */
  lemma {:induction false} OneTypePerWord(v: Abi, t: AbiType)
    requires HasType(v, t)
    ensures |Encode(v)| == WORD * |TypesOf(v)|
    ensures v.AArray? ==> FlaggedParts(PartsOf(v))
    decreases v
  {
    if v.AArray? {
      forall i | 0 <= i < |v.items| ensures |PartsOf(v)[i].enc| == WORD * |PartsOf(v)[i].flags| {
        OneTypePerWord(v.items[i], MemberType(t, i));
      }
      AreaWords(PartsOf(v));
    }
  }

  /** A zero-length fixed array. */
  predicate IsGap(v: Abi) { v.AArray? && !v.dynamicSize && v.items == [] }

  /** Only a gap encodes to nothing. */
  lemma EmptyIsGap(v: Abi, t: AbiType)
    requires HasType(v, t)
    ensures |Encode(v)| == 0 <==> IsGap(v)
  {
    if v.AArray? && v.items != [] {
      var area := Area(PartsOf(v));
      assert area[0] == HeadOf(PartsOf(v)[0], TailOffset(PartsOf(v), 0));
      ConcatAt(area, 0);
    } else if v.AArray? {
      assert Area(PartsOf(v)) == [];
    }
  }

  lemma TypedParts(v: Abi, t: AbiType)
    requires Typed(v, t)
    ensures |Encode(v)| > 0 && (v.AArray? ==> GoodParts(PartsOf(v)))
  {
    EmptyIsGap(v, t);
    if v.AArray? {
      forall i | 0 <= i < |v.items| ensures GoodPart(PartsOf(v)[i]) {
        MemberTyped(v, t, i);
        EmptyIsGap(v.items[i], MemberType(t, i));
        OneTypePerWord(v.items[i], MemberType(t, i));
      }
    }
  }

  /** The word index of child `i`'s head slot. */
  function HeadWord(v: Abi, i: nat): nat
    requires v.AArray? && i < |v.items|
  {
    |LengthFlag(v.dynamicSize)| + HeadWordOf(PartsOf(v), i)
  }

  /** The word index at which child `i`'s own encoding starts. */
  function ChildWord(v: Abi, i: nat): nat
    requires v.AArray? && i < |v.items|
  {
    |LengthFlag(v.dynamicSize)| + ChildWordOf(PartsOf(v), i)
  }

  /** The head slot of `x` holds an offset: `x` is not static, or a gap. */
  predicate Slotted(x: Abi) { !IsStatic(x) || IsGap(x) }

  lemma SlottedIff(v: Abi, t: AbiType, i: nat)
    requires v.AArray? && HasType(v, t) && i < |v.items|
    ensures InHead(PartsOf(v)[i]) <==> !Slotted(v.items[i])
    ensures IsGap(v.items[i]) <==> PartsOf(v)[i].isStatic && !InHead(PartsOf(v)[i])
  {
    EmptyIsGap(v.items[i], MemberType(t, i));
  }

  lemma GapHasNoTypes(v: Abi)
    requires IsGap(v)
    ensures TypesOf(v) == []
  {
    assert FlagArea(PartsOf(v)) == [];
  }

  /** The type map of child `i` sits where its encoding sits. */
  lemma ChildTypesAt(v: Abi, t: AbiType, i: nat)
    requires v.AArray? && HasType(v, t) && i < |v.items|
    ensures !IsGap(v.items[i]) ==> At(TypesOf(v), ChildWord(v, i), TypesOf(v.items[i]))
    ensures Slotted(v.items[i]) ==> At(TypesOf(v), HeadWord(v, i), [TvOffset])
  {
    OneTypePerWord(v, t);
    SlottedIff(v, t, i);
    PartFlagsAt(v, i);
  }

  /** The same, from what the encoder sees of the child. */
  lemma PartFlagsAt(v: Abi, i: nat)
    requires v.AArray? && i < |v.items| && FlaggedParts(PartsOf(v))
    ensures InHead(PartsOf(v)[i]) || !PartsOf(v)[i].isStatic ==> At(TypesOf(v), ChildWord(v, i), TypesOf(v.items[i]))
    ensures !InHead(PartsOf(v)[i]) ==> At(TypesOf(v), HeadWord(v, i), [TvOffset])
  {
    FlagsShifted(LengthFlag(v.dynamicSize), PartsOf(v), i, TypesOf(v));
  }

  lemma FlagsShifted(len: seq<BasicVarType>, ps: seq<Part>, i: nat, types: seq<BasicVarType>)
    requires FlaggedParts(ps) && i < |ps| && types == len + Concat(FlagArea(ps))
    ensures InHead(ps[i]) || !ps[i].isStatic ==> At(types, |len| + ChildWordOf(ps, i), ps[i].flags)
    ensures !InHead(ps[i]) ==> At(types, |len| + HeadWordOf(ps, i), [TvOffset])
  {
    ChildFlagsAt(ps, i);
    if InHead(ps[i]) || !ps[i].isStatic {
      AtShift(len, Concat(FlagArea(ps)), ChildWordOf(ps, i), ps[i].flags);
    }
    if !InHead(ps[i]) {
      AtShift(len, Concat(FlagArea(ps)), HeadWordOf(ps, i), [TvOffset]);
    }
  }

  /** Word `k` lies in child `i`'s own encoding. */
  ghost predicate InChild(v: Abi, i: nat, k: nat)
    requires v.AArray? && i < |v.items|
  {
    ChildWord(v, i) <= k < ChildWord(v, i) + |TypesOf(v.items[i])|
  }

  /** Word `k` is the head slot of a child that is not static or a gap, at this level or inside a child. */
  ghost predicate IsOffsetWord(v: Abi, k: nat)
    decreases v
  {
    && v.AArray?
    && exists i: nat :: i < |v.items| && (
         || (Slotted(v.items[i]) && k == HeadWord(v, i))
         || (InChild(v, i, k) && IsOffsetWord(v.items[i], k - ChildWord(v, i))))
  }

  lemma WordOwner(v: Abi, t: AbiType, k: nat) returns (i: nat)
    requires v.AArray? && HasType(v, t) && |LengthFlag(v.dynamicSize)| <= k < |TypesOf(v)|
    ensures i < |v.items|
    ensures InChild(v, i, k) || (Slotted(v.items[i]) && k == HeadWord(v, i))
  {
    OneTypePerWord(v, t);
    i := AreaOwner(PartsOf(v), k - |LengthFlag(v.dynamicSize)|);
    SlottedIff(v, t, i);
  }

  /** What the map says at an offset head, and inside a child. */
  lemma FlagOf(v: Abi, t: AbiType, i: nat, k: nat)
    requires v.AArray? && HasType(v, t) && i < |v.items| && k < |TypesOf(v)|
    ensures Slotted(v.items[i]) && k == HeadWord(v, i) ==> TypesOf(v)[k] == TvOffset
    ensures InChild(v, i, k) ==> TypesOf(v)[k] == TypesOf(v.items[i])[k - ChildWord(v, i)]
  {
    ChildTypesAt(v, t, i);
    if Slotted(v.items[i]) {
      AtIndex(TypesOf(v), HeadWord(v, i), [TvOffset], 0);
    }
    if IsGap(v.items[i]) {
      GapHasNoTypes(v.items[i]);
    } else if InChild(v, i, k) {
      AtIndex(TypesOf(v), ChildWord(v, i), TypesOf(v.items[i]), k - ChildWord(v, i));
    }
  }

  /** `TvOffset` marks exactly the heads of children that are not static and of gaps, at every depth. */
  lemma OffsetWordsExact(v: Abi, t: AbiType, k: nat)
    requires HasType(v, t) && k < |TypesOf(v)|
    ensures TypesOf(v)[k] == TvOffset <==> IsOffsetWord(v, k)
  {
    if IsOffsetWord(v, k) {
      OffsetWordsMarked(v, t, k);
    }
    if TypesOf(v)[k] == TvOffset {
      MarksAreOffsets(v, t, k);
    }
  }

  lemma OffsetOwner(v: Abi, k: nat) returns (i: nat)
    requires IsOffsetWord(v, k)
    ensures i < |v.items|
    ensures (Slotted(v.items[i]) && k == HeadWord(v, i)) ||
            (InChild(v, i, k) && IsOffsetWord(v.items[i], k - ChildWord(v, i)))
  {
    i :| i < |v.items| && (
      || (Slotted(v.items[i]) && k == HeadWord(v, i))
      || (InChild(v, i, k) && IsOffsetWord(v.items[i], k - ChildWord(v, i))));
  }

  lemma {:induction false} OffsetWordsMarked(v: Abi, t: AbiType, k: nat)
    requires HasType(v, t) && k < |TypesOf(v)| && IsOffsetWord(v, k)
    ensures TypesOf(v)[k] == TvOffset
    decreases v, 1
  {
    var i := OffsetOwner(v, k);
    if Slotted(v.items[i]) && k == HeadWord(v, i) {
      FlagOf(v, t, i, k);
    } else {
      MarkedInChild(v, t, i, k);
    }
  }

  lemma {:induction false} MarkedInChild(v: Abi, t: AbiType, i: nat, k: nat)
    requires v.AArray? && HasType(v, t) && i < |v.items| && k < |TypesOf(v)|
    requires InChild(v, i, k) && IsOffsetWord(v.items[i], k - ChildWord(v, i))
    ensures TypesOf(v)[k] == TvOffset
    decreases v, 0
  {
    FlagOf(v, t, i, k);
    OffsetWordsMarked(v.items[i], MemberType(t, i), k - ChildWord(v, i));
  }

  lemma {:induction false} MarksAreOffsets(v: Abi, t: AbiType, k: nat)
    requires HasType(v, t) && k < |TypesOf(v)| && TypesOf(v)[k] == TvOffset
    ensures IsOffsetWord(v, k)
    decreases v
  {
    assert v.AArray? && |LengthFlag(v.dynamicSize)| <= k;
    var i := WordOwner(v, t, k);
    FlagOf(v, t, i, k);
    if !(Slotted(v.items[i]) && k == HeadWord(v, i)) {
      MarksAreOffsets(v.items[i], MemberType(t, i), k - ChildWord(v, i));
    }
  }

  lemma ChildrenAreaAt(v: Abi, k: nat, p: Bytes)
    requires v.AArray? && At(Concat(Area(PartsOf(v))), k, p)
    ensures At(Encode(v), Base(v) + k, p)
  {
    AtShift(LengthPrefix(v.dynamicSize, |v.items|), Concat(Area(PartsOf(v))), k, p);
  }

  /** Word indices and byte positions agree. */
  lemma WordsAndBytes(v: Abi, t: AbiType, i: nat)
    requires v.AArray? && HasType(v, t) && i < |v.items|
    ensures Base(v) + HeadPos(PartsOf(v), i) == WORD * HeadWord(v, i)
    ensures Base(v) + ChildPos(PartsOf(v), i) == WORD * ChildWord(v, i)
  {
    OneTypePerWord(v, t);
    PositionsScaled(PartsOf(v), i);
  }

  /** A non-static child's offset word and its encoding, by byte position, behind whatever comes first. */
  lemma PartPlaces(ps: seq<Part>, before: Bytes, area: Bytes, i: nat)
    requires GoodParts(ps) && i < |ps| && !ps[i].isStatic && area == Concat(Area(ps))
    ensures At(before + area, |before| + HeadPos(ps, i), SizeWord(TailPos(ps, i)))
    ensures At(before + area, |before| + TailPos(ps, i), ps[i].enc)
  {
    ChildAt(ps, area, i);
    AtShift(before, area, HeadPos(ps, i), SizeWord(TailPos(ps, i)));
    AtShift(before, area, TailPos(ps, i), ps[i].enc);
  }

  /** The number in an offset word, past the length word if any, is where that child's encoding starts. */
  lemma OffsetPointsAtChild(v: Abi, t: AbiType, i: nat)
    requires v.AArray? && Typed(v, t) && i < |v.items| && !IsStatic(v.items[i]) && |Encode(v)| < USIZE
    ensures WORD * HeadWord(v, i) + WORD <= |Encode(v)| && At(TypesOf(v), HeadWord(v, i), [TvOffset])
    ensures var target := Base(v) + ReadSize(Encode(v)[WORD * HeadWord(v, i)..]);
            && At(Encode(v), target, Encode(v.items[i]))
            && target == WORD * ChildWord(v, i)
  {
    ChildTypesAt(v, t, i);
    OffsetPlacesInWords(v, t, i);
    SlotReads(Encode(v), WORD * HeadWord(v, i), TailPos(PartsOf(v), i));
  }

  lemma OffsetPlacesInWords(v: Abi, t: AbiType, i: nat)
    requires v.AArray? && Typed(v, t) && i < |v.items| && !IsStatic(v.items[i])
    ensures At(Encode(v), WORD * HeadWord(v, i), SizeWord(TailPos(PartsOf(v), i)))
    ensures At(Encode(v), WORD * ChildWord(v, i), Encode(v.items[i]))
    ensures Base(v) + TailPos(PartsOf(v), i) == WORD * ChildWord(v, i)
  {
    TypedParts(v, t);
    WordsAndBytes(v, t, i);
    PlacesAt(PartsOf(v), LengthPrefix(v.dynamicSize, |v.items|), Encode(v), i, WORD * HeadWord(v, i),
      WORD * ChildWord(v, i), Encode(v.items[i]));
  }

  /** The same in the whole encoding `b`, with the positions and the child's encoding given. */
  lemma PlacesAt(ps: seq<Part>, before: Bytes, b: Bytes, i: nat, slot: nat, child: nat, enc: Bytes)
    requires GoodParts(ps) && i < |ps| && !ps[i].isStatic && b == before + Concat(Area(ps)) && ps[i].enc == enc
    requires slot == |before| + HeadPos(ps, i) && child == |before| + TailPos(ps, i)
    ensures At(b, slot, SizeWord(TailPos(ps, i))) && At(b, child, enc)
  {
    PartPlaces(ps, before, Concat(Area(ps)), i);
  }

  lemma SlotReads(b: Bytes, k: nat, n: nat)
    requires At(b, k, SizeWord(n)) && n < USIZE
    ensures ReadSize(b[k..]) == n
  {
    AtDrop(b, k, SizeWord(n));
    SizeWordReadBack(n, b[k..]);
  }
}
