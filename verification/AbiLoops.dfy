/** The loops of `get_bytes`, `get_basic_types` and `set_bytes`, proved against `AbiCodec`. */
module AbiLoops {
  import opened Words
  import opened Pieces
  import opened AbiCodec
  import opened AbiLayout

  /** `AEmpty` inside an array makes `is_static` panic. */
  ghost predicate NoHoles(v: Abi) {
    v.AArray? ==> forall i :: 0 <= i < |v.items| ==> !v.items[i].AEmpty? && NoHoles(v.items[i])
  }

  method CopyInto<T>(buffer: array<T>, at: nat, src: seq<T>)
    requires at + |src| <= buffer.Length
    modifies buffer
    ensures buffer[..at] == old(buffer[..at])
    ensures buffer[at..at + |src|] == src
    ensures buffer[at + |src|..] == old(buffer[at + |src|..])
  {
    for i := 0 to |src|
      invariant buffer[..at] == old(buffer[..at])
      invariant buffer[at..at + i] == src[..i]
      invariant buffer[at + |src|..] == old(buffer[at + |src|..])
    {
      buffer[at + i] := src[i];
      assert src[..i + 1] == src[..i] + [src[i]];
    }
    assert src[..|src|] == src;
  }

  /** Copies the pieces one after the other, the `offset` running along. */
  method WriteAll<T>(buffer: array<T>, start: nat, pieces: seq<seq<T>>) returns (offset: nat)
    requires start + |Concat(pieces)| <= buffer.Length
    modifies buffer
    ensures offset == start + |Concat(pieces)|
    ensures buffer[..offset] == old(buffer[..start]) + Concat(pieces)
  {
    offset := start;
    for i := 0 to |pieces|
      invariant offset == start + StartOf(pieces, i) <= buffer.Length
      invariant buffer[..offset] == old(buffer[..start]) + Concat(pieces[..i])
    {
      ConcatSplit(pieces, i);
      Extended(pieces, i);
      ghost var before := buffer[..offset];
      CopyInto(buffer, offset, pieces[i]);
      offset := offset + |pieces[i]|;
      assert buffer[..offset] == before + pieces[i];
    }
    assert pieces[..|pieces|] == pieces;
  }

  lemma Extended<T>(pieces: seq<seq<T>>, i: nat)
    requires i < |pieces|
    ensures Concat(pieces[..i + 1]) == Concat(pieces[..i]) + pieces[i]
  {
    assert pieces[..i + 1] == pieces[..i] + [pieces[i]];
    ConcatAppend(pieces[..i], [pieces[i]]);
    ConcatOne(pieces[i]);
  }

  method NewSizeWord(n: nat) returns (word: Bytes)
    ensures word == SizeWord(n)
  {
    var buffer := new Byte[WORD](_ => 0);
    SetSize(buffer, n);
    word := buffer[..];
    assert buffer[..WORD] == buffer[..];
  }

  /** What the encoder keeps in `head` for a child. */
  function StaticBytes(p: Part): Bytes { if p.isStatic then p.enc else [] }

  /** What `set_size` sees: an empty `head` entry becomes an offset word. */
  lemma SlotOf(p: Part, offset: nat)
    ensures HeadOf(p, offset) == if |StaticBytes(p)| == 0 then SizeWord(offset) else StaticBytes(p)
  {}

  /** What one child adds to `head`, `tail` and `head_size`. */
  method SplitChild(x: Abi, ghost p: Part) returns (head: Bytes, tail: Bytes, count: nat)
    requires NoHoles(x) && p == Part(IsStatic(x), Encode(x), TypesOf(x))
    ensures head == StaticBytes(p) && tail == TailOf(p) && count == HeadCount(p)
    decreases x, 3
  {
    var encoded := GetBytes(x);
    if IsStatic(x) {
      head, tail, count := encoded, [], |encoded|;
    } else {
      head, tail, count := [], encoded, 32;
    }
  }

  /** The first `i` children are sorted into `head` and `tail`. */
  ghost predicate SplitUpTo(ps: seq<Part>, i: nat, head: seq<Bytes>, tail: seq<Bytes>, headSize: nat) {
    && i <= |ps| && |head| == i && tail == TailPieces(ps)[..i] && headSize == HeadSize(ps[..i])
    && forall j :: 0 <= j < i ==> head[j] == StaticBytes(ps[j])
  }

  lemma SplitNext(ps: seq<Part>, i: nat, head: seq<Bytes>, tail: seq<Bytes>, headSize: nat)
    requires SplitUpTo(ps, i, head, tail, headSize) && i < |ps|
    ensures SplitUpTo(ps, i + 1, head + [StaticBytes(ps[i])], tail + [TailOf(ps[i])], headSize + HeadCount(ps[i]))
  {
    var tails := TailPieces(ps);
    assert ps[..i + 1][..i] == ps[..i];
    assert tails[..i + 1] == tails[..i] + [tails[i]];
  }

  /** The first loop of the array encoder: children's bytes go to `head` or to `tail`. */
  method SplitChildren(v: Abi) returns (head: seq<Bytes>, tail: seq<Bytes>, headSize: nat)
    requires v.AArray? && NoHoles(v)
    ensures |head| == |v.items| && tail == TailPieces(PartsOf(v)) && headSize == HeadSize(PartsOf(v))
    ensures forall i :: 0 <= i < |head| ==> head[i] == StaticBytes(PartsOf(v)[i])
    decreases v, 0
  {
    head, tail, headSize := [], [], 0;
    ghost var ps, tails := PartsOf(v), TailPieces(PartsOf(v));
    for i := 0 to |v.items|
      invariant SplitUpTo(ps, i, head, tail, headSize)
    {
      var h, t, count := SplitChild(v.items[i], ps[i]);
      SplitNext(ps, i, head, tail, headSize);
      head, tail, headSize := head + [h], tail + [t], headSize + count;
    }
    assert ps[..|ps|] == ps && tails[..|tails|] == tails;
  }

  /** `tails_offset`: the running sum of the tail sizes. */
  method TailOffsets(tail: seq<Bytes>) returns (offsets: seq<nat>, content: nat)
    requires |tail| > 0
    ensures |offsets| == |tail| && content == |Concat(tail)|
    ensures forall j :: 0 <= j < |tail| ==> offsets[j] == StartOf(tail, j)
  {
    offsets, content := [0], 0;
    for i := 0 to |tail| - 1
      invariant |offsets| == i + 1 && content == StartOf(tail, i)
      invariant forall j :: 0 <= j <= i ==> offsets[j] == StartOf(tail, j)
    {
      content := content + |tail[i]|;
      ConcatSplit(tail, i);
      offsets := offsets + [content];
    }
    ConcatSplit(tail, |tail| - 1);
    StartOfEnd(tail);
    content := content + |tail[|tail| - 1]|;
  }

  method HeadSlot(head: Bytes, offset: nat) returns (slot: Bytes)
    ensures slot == if |head| == 0 then SizeWord(offset) else head
  {
    slot := head;
    if |head| == 0 {
      slot := NewSizeWord(offset);
    }
  }

  /** The second phase: each child's head slot, in place or as the offset of its tail. */
  method HeadSlots(head: seq<Bytes>, offsets: seq<nat>, headSize: nat, ghost ps: seq<Part>)
    returns (slots: seq<Bytes>, slotsSize: nat)
    requires |head| == |offsets| == |ps| && headSize == HeadSize(ps)
    requires forall i :: 0 <= i < |ps| ==> head[i] == StaticBytes(ps[i])
    requires forall i :: 0 <= i < |ps| ==> offsets[i] == StartOf(TailPieces(ps), i)
    ensures slots == HeadPieces(ps) && slotsSize == |Concat(slots)|
  {
    slots, slotsSize := [], 0;
    ghost var all := HeadPieces(ps);
    for i := 0 to |offsets|
      invariant slots == all[..i] && slotsSize == StartOf(all, i)
    {
      var slot := HeadSlot(head[i], offsets[i] + headSize);
      SlotIs(ps, i, head[i], offsets[i] + headSize);
      NextPiece(all, i);
      slots, slotsSize := slots + [slot], slotsSize + |slot|;
    }
    StartOfEnd(all);
    assert all[..|all|] == all;
  }

  lemma SlotIs(ps: seq<Part>, i: nat, head: Bytes, offset: nat)
    requires i < |ps| && head == StaticBytes(ps[i]) && offset == TailOffset(ps, i)
    ensures HeadPieces(ps)[i] == if |head| == 0 then SizeWord(offset) else head
  {
    SlotOf(ps[i], offset);
  }

  lemma NextPiece<T>(all: seq<seq<T>>, i: nat)
    requires i < |all|
    ensures all[..i + 1] == all[..i] + [all[i]] && StartOf(all, i + 1) == StartOf(all, i) + |all[i]|
  {
    ConcatSplit(all, i);
  }

  /** The last phase: the length word, the head slots and the tails in one preallocated buffer. */
  method FillBuffer(dyn: bool, n: nat, slots: seq<Bytes>, slotsSize: nat, tail: seq<Bytes>, tailSize: nat)
    returns (bytes: Bytes)
    requires slotsSize == |Concat(slots)| && tailSize == |Concat(tail)|
    ensures bytes == LengthPrefix(dyn, n) + Concat(slots + tail)
  {
    var start := if dyn then 32 else 0;
    var buffer := new Byte[slotsSize + tailSize + start](_ => 0);
    if dyn {
      SetSize(buffer, n);
    }
    assert buffer[..start] == LengthPrefix(dyn, n);
    var offset := WriteAll(buffer, start, slots);
    offset := WriteAll(buffer, offset, tail);
    bytes := buffer[..];
    assert buffer[..offset] == bytes;
    ConcatAppend(slots, tail);
  }

  method ArrayBytes(v: Abi) returns (bytes: Bytes)
    requires v.AArray? && NoHoles(v)
    ensures bytes == Encode(v)
    decreases v, 1
  {
    var head, tail, headSize := SplitChildren(v);
    var slots: seq<Bytes>, slotsSize, tailSize := [], 0, 0;
    if |tail| > 0 {
      var offsets;
      offsets, tailSize := TailOffsets(tail);
      slots, slotsSize := HeadSlots(head, offsets, headSize, PartsOf(v));
    }
    bytes := FillBuffer(v.dynamicSize, |v.items|, slots, slotsSize, tail, tailSize);
  }

  method WordBytes(w: WordData) returns (bytes: Bytes)
    ensures bytes == Zeros(WORD - |w|) + w
  {
    var buffer := new Byte[WORD](_ => 0);
    CopyInto(buffer, WORD - |w|, w);
    assert buffer[..WORD - |w|] == Zeros(WORD - |w|);
    bytes := buffer[..];
    assert bytes == buffer[..WORD - |w|] + buffer[WORD - |w|..];
  }

  method DynamicBytes(d: Bytes) returns (bytes: Bytes)
    ensures bytes == SizeWord(|d|) + d + Zeros(Roundup(|d|) - |d|)
  {
    var buffer := new Byte[Roundup(|d|) + WORD](_ => 0);
    ghost var padding := buffer[WORD + |d|..];
    assert padding == Zeros(Roundup(|d|) - |d|);
    assert buffer[WORD + |d|..] == buffer[WORD..][|d|..];
    SetSize(buffer, |d|);
    assert buffer[WORD + |d|..] == buffer[WORD..][|d|..];
    CopyInto(buffer, WORD, d);
    assert buffer[WORD + |d|..] == padding;
    bytes := buffer[..];
    assert bytes == buffer[..WORD] + buffer[WORD..WORD + |d|] + buffer[WORD + |d|..];
  }

  /** `get_bytes`. */
  method GetBytes(v: Abi) returns (bytes: Bytes)
    requires NoHoles(v)
    ensures bytes == Encode(v)
    decreases v, 2
  {
    match v
    case A256(w, _, _, _) =>
      bytes := WordBytes(w);
    case ADynamic(d) =>
      bytes := DynamicBytes(d);
    case AEmpty =>
      bytes := [];
    case AArray(_, _) =>
      bytes := ArrayBytes(v);
  }

  lemma {:induction false} TypedNoHoles(v: Abi, t: AbiType)
    requires HasType(v, t)
    ensures NoHoles(v)
    decreases v
  {
    if v.AArray? {
      forall i | 0 <= i < |v.items| ensures !v.items[i].AEmpty? && NoHoles(v.items[i]) {
        TypedNoHoles(v.items[i], MemberType(t, i));
      }
    }
  }

  /** What one child contributes to the flags: its head slot's and its tail's. */
  method ChildFlags(x: Abi, ghost t: AbiType) returns (head: seq<BasicVarType>, tail: seq<BasicVarType>)
    requires HasType(x, t)
    ensures var p := Part(IsStatic(x), Encode(x), TypesOf(x));
            head == HeadFlagsOf(p) && tail == TailFlagsOf(p)
    decreases x, 2
  {
    TypedNoHoles(x, t);
    var encoded := GetBytes(x);
    var types := GetBasicTypes(x, t);
    head, tail := types, [];
    if !IsStatic(x) || |encoded| == 0 {
      head := [TvOffset];
    }
    if !IsStatic(x) {
      tail := types;
    }
  }

  /** The word types of the children, for the head slots and for the tails. */
  method SplitFlags(v: Abi, ghost t: AbiType)
    returns (heads: seq<seq<BasicVarType>>, tails: seq<seq<BasicVarType>>)
    requires v.AArray? && HasType(v, t)
    ensures heads == HeadFlagPieces(PartsOf(v)) && tails == TailFlagPieces(PartsOf(v))
    decreases v, 0
  {
    heads, tails := [], [];
    ghost var hs, ts := HeadFlagPieces(PartsOf(v)), TailFlagPieces(PartsOf(v));
    for i := 0 to |v.items|
      invariant heads == hs[..i] && tails == ts[..i]
    {
      var head, tail := ChildFlags(v.items[i], MemberType(t, i));
      FlagPiecesAt(v, i);
      NextPiece(hs, i);
      NextPiece(ts, i);
      heads, tails := heads + [head], tails + [tail];
    }
    assert hs[..|hs|] == hs && ts[..|ts|] == ts;
  }

  lemma FlagPiecesAt(v: Abi, i: nat)
    requires v.AArray? && i < |v.items|
    ensures var p := Part(IsStatic(v.items[i]), Encode(v.items[i]), TypesOf(v.items[i]));
            HeadFlagPieces(PartsOf(v))[i] == HeadFlagsOf(p) && TailFlagPieces(PartsOf(v))[i] == TailFlagsOf(p)
  {}

  lemma Assembled<T>(front: seq<T>, heads: seq<seq<T>>, tails: seq<seq<T>>)
    ensures front + Concat(heads) + Concat(tails) == front + Concat(heads + tails)
    ensures |Concat(heads + tails)| == |Concat(heads)| + |Concat(tails)|
  {
    ConcatAppend(heads, tails);
    assert front + Concat(heads) + Concat(tails) == front + (Concat(heads) + Concat(tails));
  }

  method FillFlags(dyn: bool, words: nat, heads: seq<seq<BasicVarType>>, tails: seq<seq<BasicVarType>>)
    returns (flags: seq<BasicVarType>)
    requires words == |LengthFlag(dyn)| + |Concat(heads + tails)|
    ensures flags == LengthFlag(dyn) + Concat(heads + tails)
  {
    Assembled(LengthFlag(dyn), heads, tails);
    var buffer := new BasicVarType[words](_ => TvNone);
    var start := if dyn then 1 else 0;
    if dyn {
      buffer[0] := TvLength;
    }
    assert buffer[..start] == LengthFlag(dyn);
    var offset := WriteAll(buffer, start, heads);
    assert buffer[..offset] == LengthFlag(dyn) + Concat(heads);
    offset := WriteAll(buffer, offset, tails);
    flags := buffer[..];
    assert buffer[..offset] == flags;
  }

  /** `get_basic_types`; for an array the flag buffer has one entry per 32 bytes of the encoding. */
  method GetBasicTypes(v: Abi, ghost t: AbiType) returns (flags: seq<BasicVarType>)
    requires HasType(v, t)
    ensures flags == TypesOf(v)
    decreases v, 1
  {
    match v
    case A256(w, a, _, b) =>
      flags := [if a then TvAddress else if b then TvStrBytes(|w|) else TvInt(|w|)];
    case ADynamic(d) =>
      flags := [TvLength];
      for i := 0 to |d| / WORD
        invariant flags == [TvLength] + seq(i, _ => TvStrBytes(WORD))
      {
        flags := flags + [TvStrBytes(WORD)];
      }
      if |d| % WORD != 0 {
        flags := flags + [TvStrBytes(|d| % WORD)];
      }
    case AArray(xs, dyn) =>
      var heads, tails := SplitFlags(v, t);
      TypedNoHoles(v, t);
      OneTypePerWord(v, t);
      var bytes := GetBytes(v);
      flags := FillFlags(dyn, |bytes| / 32, heads, tails);
  }

  /** The `push` loop and `truncate` of `set_bytes`. */
  method ResizeItems(rs: seq<Abi>, n: nat) returns (ts: seq<Abi>)
    ensures |rs| > 0 ==> ts == Resize(rs, n)
    ensures |rs| == 0 ==> ts == seq(n, _ => AEmpty)
  {
    ts := rs;
    while |ts| < n
      invariant |ts| >= |rs| && (|ts| <= n || |ts| == |rs|)
      invariant |rs| > 0 ==> forall i :: 0 <= i < |ts| ==> ts[i] == Template(rs, i)
      invariant |rs| == 0 ==> forall i :: 0 <= i < |ts| ==> ts[i] == AEmpty
    {
      if ts == [] {
        ts := ts + [AEmpty];
      } else {
        ts := ts + [ts[0]];
      }
    }
    ts := ts[..n];
  }

  /** Where an item is read from and how far the head cursor moves. */
  method FindItem(t: Abi, bytes: Bytes, base: nat, offset: nat) returns (place: Option<(nat, nat)>)
    requires base <= |bytes|
    ensures place == Locate(t, bytes[base..], offset)
  {
    match t
    case A256(_, _, _, _) => place := Some((offset, 32));
    case AEmpty => place := Some((0, 0));
    case _ =>
      if StaticPanics(t) {
        place := None;
      } else if t.AArray? && IsStatic(t) {
        place := Some((offset, SizeOf(t)));
      } else if offset + base + WORD > |bytes| {
        place := None;
      } else {
        assert bytes[offset + base..] == bytes[base..][offset..];
        var at := GetSize(bytes[offset + base..]);
        place := Some((at, 32));
      }
  }

  /** Decoding the first items gave `done`; the outcome of the whole is that of the rest after `done`. */
  ghost predicate Continues(whole: Option<seq<Abi>>, done: seq<Abi>, rest: Option<seq<Abi>>) {
    whole == if rest.Some? then Some(done + rest.value) else None
  }

  lemma ContinuesStep(whole: Option<seq<Abi>>, done: seq<Abi>, x: Abi, rest: Option<seq<Abi>>)
    requires Continues(whole, done, if rest.Some? then Some([x] + rest.value) else None)
    ensures Continues(whole, done + [x], rest)
  {
    if rest.Some? {
      assert done + ([x] + rest.value) == done + [x] + rest.value;
    }
  }

  /** The loop over the receiver's items; `ok` is false where the program panics. */
  method SetItems(r: Abi, ts: seq<Abi>, bytes: Bytes, base: nat) returns (ok: bool, items: seq<Abi>)
    requires r.AArray? && base <= |bytes| && forall i :: 0 <= i < |ts| ==> ts[i] in r.items
    ensures DecodeItems(r, ts, bytes[base..], 0) == if ok then Some(items) else None
    decreases r, 0
  {
    items := [];
    var offset: nat := 0;
    ghost var body, whole := bytes[base..], DecodeItems(r, ts, bytes[base..], 0);
    assert ts[0..] == ts && (whole.Some? ==> [] + whole.value == whole.value);
    for i := 0 to |ts|
      invariant Continues(whole, items, DecodeItems(r, ts[i..], body, offset))
    {
      assert ts[i..][1..] == ts[i + 1..];
      var place := FindItem(ts[i], bytes, base, offset);
      if place.None? || place.value.0 + base > |bytes| {
        return false, items;
      }
      assert bytes[place.value.0 + base..] == body[place.value.0..];
      var decoded := SetBytes(ts[i], bytes[place.value.0 + base..]);
      if decoded.None? {
        return false, items;
      }
      ContinuesStep(whole, items, decoded.value, DecodeItems(r, ts[i + 1..], body, offset + place.value.1));
      items := items + [decoded.value];
      offset := offset + place.value.1;
    }
    assert ts[|ts|..] == [] && items + [] == items;
    ok := true;
  }

  /** `set_bytes`: the receiver afterwards, or `None` where the program panics. */
  method SetBytes(r: Abi, bytes: Bytes) returns (res: Option<Abi>)
    ensures res == Decode(r, bytes)
    decreases r
  {
    match r
    case A256(w, a, m, y) =>
      res := if |bytes| < WORD then None else Some(A256(bytes[WORD - |w|..WORD], a, m, y));
    case ADynamic(_) =>
      if bytes == [] {
        return Some(ADynamic([]));
      }
      if |bytes| < WORD {
        return None;
      }
      var n := GetSize(bytes);
      res := if |bytes| < WORD + n then None else Some(ADynamic(bytes[WORD..WORD + n]));
    case AEmpty =>
      res := if bytes == [] then Some(AEmpty) else None;
    case AArray(rs, dyn) =>
      var base, ts := 0, rs;
      if dyn {
        if |bytes| < WORD {
          return None;
        }
        var n := GetSize(bytes);
        ts := ResizeItems(rs, n);
        base := 32;
      }
      if rs == [] {
        // every item is a fresh `AEmpty`, which accepts only an empty slice
        return if ts == [] || |bytes| == base then Some(AArray(ts, dyn)) else None;
      }
      assert !dyn ==> ts == Resize(rs, |rs|);
      assert bytes[0..] == bytes;
      var ok, items := SetItems(r, ts, bytes, base);
      res := if ok then Some(AArray(items, dyn)) else None;
  }
}
