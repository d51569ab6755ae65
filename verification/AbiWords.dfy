/** Every word of the type map and every byte of the encoding, by its index. */
module AbiWords {
  import opened Words
  import opened Pieces
  import opened AbiCodec
  import opened AbiLayout
  import opened AbiGaps

  // ---- where the words are ----

  /** How many words each child takes in the head: one for an offset, all its own otherwise. */
  function HeadWords(xs: seq<Abi>): (ns: seq<nat>)
    ensures |ns| == |xs|
  {
    seq(|xs|, i requires 0 <= i < |xs| => if Slotted(xs[i]) then 1 else |Encode(xs[i])| / 32)
  }

  /** And in the tail: all its own if it is not static. */
  function TailWords(xs: seq<Abi>): (ns: seq<nat>)
    ensures |ns| == |xs|
  {
    seq(|xs|, i requires 0 <= i < |xs| => if IsStatic(xs[i]) then 0 else |Encode(xs[i])| / 32)
  }

  lemma PieceWords(v: Abi, t: AbiType, i: nat)
    requires v.AArray? && HasType(v, t) && i < |v.items|
    ensures |HeadFlagPieces(PartsOf(v))[i]| == HeadWords(v.items)[i]
    ensures |TailFlagPieces(PartsOf(v))[i]| == TailWords(v.items)[i]
  {
    SlottedIff(v, t, i);
    OneTypePerWord(v.items[i], MemberType(t, i));
  }

  /**
   * The children of an array follow its length word in order: first what each puts in the head, then
   * the tails of those that are not static.
   */
  lemma WordPlaces(v: Abi, t: AbiType, i: nat)
    requires v.AArray? && HasType(v, t) && i < |v.items|
    ensures var first := if v.dynamicSize then 1 else 0;
            && HeadWord(v, i) == first + Sum(HeadWords(v.items)[..i])
            && ChildWord(v, i) == if IsStatic(v.items[i]) then HeadWord(v, i)
                                  else first + Sum(HeadWords(v.items)) + Sum(TailWords(v.items)[..i])
  {
    var ps, xs := PartsOf(v), v.items;
    forall k | 0 <= k < |xs|
      ensures |HeadFlagPieces(ps)[k]| == HeadWords(xs)[k] && |TailFlagPieces(ps)[k]| == TailWords(xs)[k]
    {
      PieceWords(v, t, k);
    }
    PlacesOf(ps, HeadWords(xs), TailWords(xs), i);
  }

  lemma PlacesOf(ps: seq<Part>, heads: seq<nat>, tails: seq<nat>, i: nat)
    requires i < |ps| == |heads| == |tails|
    requires forall k :: 0 <= k < |ps| ==> heads[k] == |HeadFlagPieces(ps)[k]| && tails[k] == |TailFlagPieces(ps)[k]|
    ensures HeadWordOf(ps, i) == Sum(heads[..i])
    ensures ChildWordOf(ps, i) == if ps[i].isStatic then HeadWordOf(ps, i) else Sum(heads) + Sum(tails[..i])
  {
    StartOfPrefix(HeadFlagPieces(ps), TailFlagPieces(ps), i);
    StartOfSum(HeadFlagPieces(ps), heads, i);
    StartOfAppend(HeadFlagPieces(ps), TailFlagPieces(ps), i);
    StartOfSum(HeadFlagPieces(ps), heads, |ps|);
    StartOfEnd(HeadFlagPieces(ps));
    assert heads[..|ps|] == heads;
    StartOfSum(TailFlagPieces(ps), tails, i);
  }

  /**
   * `get_size` counts a word as 32 bytes, a byte string with its length word but without its padding,
   * and an array as its items and its length word, without offsets.
   */
  lemma SizeLaws(v: Abi, x: Abi)
    ensures v.A256? ==> SizeOf(v) == 32 == |Encode(v)|
    ensures v.ADynamic? ==> SizeOf(v) == 32 + |v.data| && Roundup(SizeOf(v)) == |Encode(v)|
    ensures v.AArray? && v.items == [] ==> SizeOf(v) == if v.dynamicSize then 32 else 0
    ensures v.AArray? ==> SizeOf(v.(items := v.items + [x])) == SizeOf(v) + SizeOf(x)
  {
    if v.AArray? {
      var xs := v.items;
      var sizes := seq(|xs|, i requires 0 <= i < |xs| => SizeOf(xs[i]));
      SumSnoc(sizes, SizeOf(x));
      var ys := xs + [x];
      assert seq(|ys|, i requires 0 <= i < |ys| => SizeOf(ys[i])) == sizes + [SizeOf(x)];
    }
  }

  // ---- the type map ----

  /**
   * `f` is what word `k` of `v` is: an address, bytes or a number of the width of its type; the length
   * of a byte string or list; as many bytes of a byte string as the word holds; the offset in the head
   * slot of a child that is not static or a gap; or what the child that the word lies in says.
   */
  ghost predicate FlagFits(v: Abi, t: AbiType, k: nat, f: BasicVarType)
    requires HasType(v, t)
    decreases v
  {
    match v
    case A256(_, _, _, _) =>
      && k == 0
      && (t.isAddress ==> f == TvAddress)
      && (!t.isAddress && t.isBytes ==> f == TvStrBytes(t.width))
      && (!t.isAddress && !t.isBytes ==> f == TvInt(t.width))
    case ADynamic(d) =>
      if k == 0 then f == TvLength
      else 32 * (k - 1) < |d| && f == TvStrBytes(if |d| >= 32 * k then 32 else |d| - 32 * (k - 1))
    case AArray(xs, dyn) =>
      if dyn && k == 0 then f == TvLength
      else (
        exists i: nat :: i < |xs| && (
          || (Slotted(xs[i]) && k == HeadWord(v, i) && f == TvOffset)
          || (InChild(v, i, k) && FlagFits(xs[i], MemberType(t, i), k - ChildWord(v, i), f))))
  }

  /** `v` is an array and word `k` is not its length. */
  ghost predicate BelongsToChild(v: Abi, k: nat) { v.AArray? && !(v.dynamicSize && k == 0) }

  lemma FlagOwner(v: Abi, t: AbiType, k: nat, f: BasicVarType) returns (i: nat)
    requires HasType(v, t) && BelongsToChild(v, k) && FlagFits(v, t, k, f)
    ensures i < |v.items|
    ensures || (Slotted(v.items[i]) && k == HeadWord(v, i) && f == TvOffset)
            || (InChild(v, i, k) && FlagFits(v.items[i], MemberType(t, i), k - ChildWord(v, i), f))
  {
    i :| i < |v.items| && (
      || (Slotted(v.items[i]) && k == HeadWord(v, i) && f == TvOffset)
      || (InChild(v, i, k) && FlagFits(v.items[i], MemberType(t, i), k - ChildWord(v, i), f)));
  }

  lemma {:induction false} FlagFound(v: Abi, t: AbiType, k: nat, i: nat, f: BasicVarType)
    requires HasType(v, t) && BelongsToChild(v, k) && i < |v.items|
    requires || (Slotted(v.items[i]) && k == HeadWord(v, i) && f == TvOffset)
             || (InChild(v, i, k) && FlagFits(v.items[i], MemberType(t, i), k - ChildWord(v, i), f))
    ensures FlagFits(v, t, k, f)
  {}

  lemma LeafFlag(v: Abi, t: AbiType, k: nat, f: BasicVarType)
    requires HasType(v, t) && k < |TypesOf(v)| && !BelongsToChild(v, k)
    ensures TypesOf(v)[k] == f <==> FlagFits(v, t, k, f)
  {}

  /** The type map says of every word what it is. */
  lemma FlagIff(v: Abi, t: AbiType, k: nat, f: BasicVarType)
    requires HasType(v, t) && k < |TypesOf(v)|
    ensures TypesOf(v)[k] == f <==> FlagFits(v, t, k, f)
  {
    FlagHolds(v, t, k);
    if FlagFits(v, t, k, f) {
      FlagUnique(v, t, k, f);
    }
  }

  lemma {:induction false} FlagHolds(v: Abi, t: AbiType, k: nat)
    requires HasType(v, t) && k < |TypesOf(v)|
    ensures FlagFits(v, t, k, TypesOf(v)[k])
    decreases v, 1
  {
    if BelongsToChild(v, k) {
      var i := WordOwner(v, t, k);
      if Slotted(v.items[i]) && k == HeadWord(v, i) {
        FlagOf(v, t, i, k);
        FlagFound(v, t, k, i, TvOffset);
      } else {
        FlagHoldsInChild(v, t, i, k);
      }
    } else {
      LeafFlag(v, t, k, TypesOf(v)[k]);
    }
  }

  lemma {:induction false} FlagHoldsInChild(v: Abi, t: AbiType, i: nat, k: nat)
    requires HasType(v, t) && k < |TypesOf(v)| && BelongsToChild(v, k) && i < |v.items| && InChild(v, i, k)
    ensures FlagFits(v, t, k, TypesOf(v)[k])
    decreases v, 0
  {
    var j := ChildFlag(v, t, i, k);
    FlagHolds(v.items[i], MemberType(t, i), j);
    FoundInChild(v, t, k, i, j, TypesOf(v.items[i])[j]);
  }

  lemma {:induction false} FoundInChild(v: Abi, t: AbiType, k: nat, i: nat, j: nat, f: BasicVarType)
    requires HasType(v, t) && BelongsToChild(v, k) && i < |v.items| && InChild(v, i, k) && j == k - ChildWord(v, i)
    requires HasType(v.items[i], MemberType(t, i)) && FlagFits(v.items[i], MemberType(t, i), j, f)
    ensures FlagFits(v, t, k, f)
  {
    FlagFound(v, t, k, i, f);
  }

  /** Word `k` of `v` is word `j` of its child. */
  lemma ChildFlag(v: Abi, t: AbiType, i: nat, k: nat) returns (j: nat)
    requires HasType(v, t) && k < |TypesOf(v)| && v.AArray? && i < |v.items| && InChild(v, i, k)
    ensures HasType(v.items[i], MemberType(t, i))
    ensures j == k - ChildWord(v, i) < |TypesOf(v.items[i])| && TypesOf(v)[k] == TypesOf(v.items[i])[j]
  {
    FlagOf(v, t, i, k);
    j := k - ChildWord(v, i);
  }

  lemma {:induction false} FlagUnique(v: Abi, t: AbiType, k: nat, f: BasicVarType)
    requires HasType(v, t) && k < |TypesOf(v)| && FlagFits(v, t, k, f)
    ensures TypesOf(v)[k] == f
    decreases v, 1
  {
    if BelongsToChild(v, k) {
      var i := FlagOwner(v, t, k, f);
      if Slotted(v.items[i]) && k == HeadWord(v, i) && f == TvOffset {
        FlagOf(v, t, i, k);
      } else {
        FlagUniqueInChild(v, t, i, k, f);
      }
    } else {
      LeafFlag(v, t, k, f);
    }
  }

  lemma {:induction false} FlagUniqueInChild(v: Abi, t: AbiType, i: nat, k: nat, f: BasicVarType)
    requires HasType(v, t) && k < |TypesOf(v)| && v.AArray? && i < |v.items| && InChild(v, i, k)
    requires FlagFits(v.items[i], MemberType(t, i), k - ChildWord(v, i), f)
    ensures TypesOf(v)[k] == f
    decreases v, 0
  {
    var j := ChildFlag(v, t, i, k);
    FlagUnique(v.items[i], MemberType(t, i), j, f);
  }

  // ---- the bytes ----

  /** Byte `j` of the 32-byte number `n`, the most significant first. */
  function Digit(n: nat, j: nat): nat
    requires j < 32
  {
    Pow256Positive(31 - j);
    n / Pow256(31 - j) % 256
  }

  lemma SizeWordDigit(n: nat, j: nat)
    requires j < 32
    ensures SizeWord(n)[j] == Digit(n, j)
  {
    BigEndianDigit(n, WORD, j);
  }

  /** Byte `k` lies in the head slot of child `i`, and in its own encoding. */
  ghost predicate InSlot(v: Abi, i: nat, k: nat)
    requires v.AArray? && i < |v.items|
  {
    Slotted(v.items[i]) && 32 * HeadWord(v, i) <= k < 32 * HeadWord(v, i) + 32
  }

  ghost predicate InChildBytes(v: Abi, i: nat, k: nat)
    requires v.AArray? && i < |v.items|
  {
    32 * ChildWord(v, i) <= k < 32 * ChildWord(v, i) + |Encode(v.items[i])|
  }

  /**
   * `b` is byte `k` of `v`: zeros in front of a word's data, then the data; the digits of a length;
   * the data of a byte string, then zeros; the digits of the offset in the head slot of a child that is
   * not static or a gap; or what the child that the byte lies in says.
   */
  ghost predicate ByteFits(v: Abi, k: nat, b: int)
    decreases v
  {
    match v
    case A256(w, _, _, _) => if k < 32 - |w| then b == 0 else k < 32 && b == w[k - (32 - |w|)]
    case ADynamic(d) => if k < 32 then b == Digit(|d|, k) else if k < 32 + |d| then b == d[k - 32] else b == 0
    case AArray(xs, dyn) =>
      if dyn && k < 32 then b == Digit(|xs|, k)
      else (
        exists i: nat :: i < |xs| && (
          || (InSlot(v, i, k) && b == Digit(TailOffset(PartsOf(v), i), k - 32 * HeadWord(v, i)))
          || (InChildBytes(v, i, k) && ByteFits(xs[i], k - 32 * ChildWord(v, i), b))))
    case AEmpty => false
  }

  ghost predicate BelongsToChildBytes(v: Abi, k: nat) { v.AArray? && !(v.dynamicSize && k < 32) }

  lemma ByteOwner(v: Abi, k: nat, b: int) returns (i: nat)
    requires BelongsToChildBytes(v, k) && ByteFits(v, k, b)
    ensures i < |v.items|
    ensures || (InSlot(v, i, k) && b == Digit(TailOffset(PartsOf(v), i), k - 32 * HeadWord(v, i)))
            || (InChildBytes(v, i, k) && ByteFits(v.items[i], k - 32 * ChildWord(v, i), b))
  {
    i :| i < |v.items| && (
      || (InSlot(v, i, k) && b == Digit(TailOffset(PartsOf(v), i), k - 32 * HeadWord(v, i)))
      || (InChildBytes(v, i, k) && ByteFits(v.items[i], k - 32 * ChildWord(v, i), b)));
  }

  lemma {:induction false} ByteFound(v: Abi, k: nat, i: nat, b: int)
    requires BelongsToChildBytes(v, k) && i < |v.items|
    requires || (InSlot(v, i, k) && b == Digit(TailOffset(PartsOf(v), i), k - 32 * HeadWord(v, i)))
             || (InChildBytes(v, i, k) && ByteFits(v.items[i], k - 32 * ChildWord(v, i), b))
    ensures ByteFits(v, k, b)
  {}

  lemma LeafByte(v: Abi, k: nat, b: int)
    requires k < |Encode(v)| && !BelongsToChildBytes(v, k)
    ensures Encode(v)[k] == b <==> ByteFits(v, k, b)
  {
    match v
    case ADynamic(d) =>
      if k < 32 {
        SizeWordDigit(|d|, k);
      }
    case AArray(xs, _) =>
      SizeWordDigit(|xs|, k);
    case _ =>
  }

  /** Part `i` has the encoding `enc`, which is written at `child`. */
  ghost predicate ChildIs(ps: seq<Part>, base: nat, i: nat, child: nat, enc: Bytes)
    requires i < |ps|
  {
    child == base + ChildPos(ps, i) && (InHead(ps[i]) || !ps[i].isStatic) && ps[i].enc == enc
  }

  /** Byte `k` in the head slot of a child, and in the child, when the children area follows `before`. */
  lemma SlotBytes(ps: seq<Part>, before: Bytes, b: Bytes, i: nat, slot: nat, k: nat)
    requires i < |ps| && b == before + Concat(Area(ps)) && slot == |before| + HeadPos(ps, i)
    requires !InHead(ps[i]) && slot <= k < slot + 32
    ensures k < |b| && b[k] == Digit(TailOffset(ps, i), k - slot)
  {
    HeadAt(ps, Concat(Area(ps)), i);
    AtIndex(Concat(Area(ps)), HeadPos(ps, i), SizeWord(TailOffset(ps, i)), k - slot);
    SizeWordDigit(TailOffset(ps, i), k - slot);
  }

  lemma ChildBytes(ps: seq<Part>, before: Bytes, b: Bytes, i: nat, child: nat, enc: Bytes, k: nat)
    requires i < |ps| && b == before + Concat(Area(ps)) && ChildIs(ps, |before|, i, child, enc)
    requires child <= k < child + |enc|
    ensures k < |b| && b[k] == enc[k - child]
  {
    HeadAt(ps, Concat(Area(ps)), i);
    TailAt(ps, Concat(Area(ps)), i);
    AtIndex(Concat(Area(ps)), ChildPos(ps, i), enc, k - child);
  }

  /** The length, if any, and the children area. */
  ghost predicate Assembles(v: Abi, b: Bytes)
    requires v.AArray?
  {
    b == LengthPrefix(v.dynamicSize, |v.items|) + Concat(Area(PartsOf(v)))
  }

  lemma SlotByte(v: Abi, t: AbiType, b: Bytes, i: nat, k: nat)
    requires v.AArray? && HasType(v, t) && Assembles(v, b) && i < |v.items| && InSlot(v, i, k)
    ensures k < |b| && b[k] == Digit(TailOffset(PartsOf(v), i), k - 32 * HeadWord(v, i))
  {
    var slot := SlotPlace(v, t, i);
    SlotBytes(PartsOf(v), LengthPrefix(v.dynamicSize, |v.items|), b, i, slot, k);
  }

  lemma SlotPlace(v: Abi, t: AbiType, i: nat) returns (slot: nat)
    requires v.AArray? && HasType(v, t) && i < |v.items| && Slotted(v.items[i])
    ensures slot == 32 * HeadWord(v, i) == |LengthPrefix(v.dynamicSize, |v.items|)| + HeadPos(PartsOf(v), i)
    ensures !InHead(PartsOf(v)[i])
  {
    slot := 32 * HeadWord(v, i);
    WordsAndBytes(v, t, i);
    SlottedIff(v, t, i);
  }

  lemma ChildByte(v: Abi, t: AbiType, b: Bytes, i: nat, k: nat, enc: Bytes)
    requires v.AArray? && HasType(v, t) && Assembles(v, b) && i < |v.items| && enc == Encode(v.items[i])
    requires 32 * ChildWord(v, i) <= k < 32 * ChildWord(v, i) + |enc|
    ensures k < |b| && b[k] == enc[k - 32 * ChildWord(v, i)]
  {
    var child := ChildPlace(v, t, i, enc);
    PlacedByte(v, b, i, child, enc, k);
  }

  lemma PlacedByte(v: Abi, b: Bytes, i: nat, child: nat, enc: Bytes, k: nat)
    requires v.AArray? && i < |v.items| && Assembles(v, b) && child <= k < child + |enc|
    requires ChildIs(PartsOf(v), |LengthPrefix(v.dynamicSize, |v.items|)|, i, child, enc)
    ensures k < |b| && b[k] == enc[k - child]
  {
    ChildBytes(PartsOf(v), LengthPrefix(v.dynamicSize, |v.items|), b, i, child, enc, k);
  }

  lemma ChildPlace(v: Abi, t: AbiType, i: nat, enc: Bytes) returns (child: nat)
    requires v.AArray? && HasType(v, t) && i < |v.items| && |enc| > 0 && enc == Encode(v.items[i])
    ensures child == 32 * ChildWord(v, i)
    ensures ChildIs(PartsOf(v), |LengthPrefix(v.dynamicSize, |v.items|)|, i, child, enc)
  {
    child := 32 * ChildWord(v, i);
    WordsAndBytes(v, t, i);
    SlottedIff(v, t, i);
    EmptyIsGap(v.items[i], MemberType(t, i));
  }

  lemma SlotFits(v: Abi, t: AbiType, b: Bytes, i: nat, k: nat)
    requires HasType(v, t) && BelongsToChildBytes(v, k) && Assembles(v, b) && i < |v.items| && InSlot(v, i, k)
    ensures k < |b| && ByteFits(v, k, b[k])
  {
    SlotByte(v, t, b, i, k);
    ByteFound(v, k, i, b[k]);
  }

  lemma ChildFits(v: Abi, t: AbiType, b: Bytes, i: nat, k: nat, enc: Bytes)
    requires HasType(v, t) && BelongsToChildBytes(v, k) && Assembles(v, b) && i < |v.items| && InChildBytes(v, i, k)
    requires enc == Encode(v.items[i])
    requires ByteFits(v.items[i], k - 32 * ChildWord(v, i), enc[k - 32 * ChildWord(v, i)])
    ensures k < |b| && ByteFits(v, k, b[k])
  {
    ChildByte(v, t, b, i, k, enc);
    ByteFound(v, k, i, b[k]);
  }

  lemma ByteHome(v: Abi, t: AbiType, k: nat) returns (i: nat)
    requires HasType(v, t) && k < |Encode(v)| && BelongsToChildBytes(v, k)
    ensures i < |v.items| && (InSlot(v, i, k) || InChildBytes(v, i, k))
  {
    OneTypePerWord(v, t);
    i := WordOwner(v, t, k / 32);
    OneTypePerWord(v.items[i], MemberType(t, i));
  }

  /** Every byte of the encoding, at every depth, is a digit, a byte of the data, or zero. */
  lemma ByteIff(v: Abi, t: AbiType, k: nat, b: int)
    requires HasType(v, t) && k < |Encode(v)|
    ensures Encode(v)[k] == b <==> ByteFits(v, k, b)
  {
    ByteHolds(v, t, k);
    if ByteFits(v, k, b) {
      ByteUnique(v, t, k, b);
    }
  }

  lemma {:induction false} ByteHolds(v: Abi, t: AbiType, k: nat)
    requires HasType(v, t) && k < |Encode(v)|
    ensures ByteFits(v, k, Encode(v)[k])
    decreases v
  {
    if BelongsToChildBytes(v, k) {
      var i := ByteHome(v, t, k);
      if InSlot(v, i, k) {
        SlotFits(v, t, Encode(v), i, k);
      } else {
        ByteHolds(v.items[i], MemberType(t, i), k - 32 * ChildWord(v, i));
        ChildFits(v, t, Encode(v), i, k, Encode(v.items[i]));
      }
    } else {
      LeafByte(v, k, Encode(v)[k]);
    }
  }

  lemma {:induction false} ByteUnique(v: Abi, t: AbiType, k: nat, b: int)
    requires HasType(v, t) && k < |Encode(v)| && ByteFits(v, k, b)
    ensures Encode(v)[k] == b
    decreases v
  {
    if BelongsToChildBytes(v, k) {
      var i := ByteOwner(v, k, b);
      if InSlot(v, i, k) && b == Digit(TailOffset(PartsOf(v), i), k - 32 * HeadWord(v, i)) {
        SlotByte(v, t, Encode(v), i, k);
      } else {
        ByteUnique(v.items[i], MemberType(t, i), k - 32 * ChildWord(v, i), b);
        ChildByte(v, t, Encode(v), i, k, Encode(v.items[i]));
      }
    } else {
      LeafByte(v, k, b);
    }
  }
}
