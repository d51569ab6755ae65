/**
 * The ABI value tree of `src/evm/abi.rs` with its encoder, its template-driven decoder and
 * the per-word type map, as functions on values. `AbiLoops` proves the loops of the
 * program against these functions.
 */
module AbiCodec {
  import opened Words
  import opened Pieces

  /** The data of an `A256`: at most 256 bits. */
  type WordData = b: Bytes | |b| <= WORD

  /** `multiplier` of `ADynamic` is 32 wherever the program builds one, so it is not a field. */
  datatype Abi =
    | A256(word: WordData, isAddress: bool, dontMutate: bool, isBytes: bool)
    | ADynamic(data: Bytes)
    | AArray(items: seq<Abi>, dynamicSize: bool)
    | AEmpty

  const ADDRESS_BYTES := 20

  datatype AbiType =
    | TWord(width: nat, isAddress: bool, isBytes: bool)
    | TDynamic
    | TList(element: AbiType)
    | TTuple(members: seq<AbiType>)

  datatype BasicVarType =
    | TvNone
    | TvInt(bytes: nat)
    | TvAddress
    | TvStrBytes(bytes: nat)
    | TvOffset
    | TvLength

  ghost predicate HasType(v: Abi, t: AbiType)
    decreases v
  {
    match v
    case A256(w, a, _, b) => t == TWord(|w|, a, b)
    case ADynamic(_) => t == TDynamic
    case AArray(xs, true) => t.TList? && forall i :: 0 <= i < |xs| ==> HasType(xs[i], t.element)
    case AArray(xs, false) =>
      t.TTuple? && |xs| == |t.members| && forall i :: 0 <= i < |xs| ==> HasType(xs[i], t.members[i])
    case AEmpty => false
  }

  /** Words of 1 to 32 bytes, addresses of 20, and no zero-length tuple or fixed array. */
  ghost predicate GoodType(t: AbiType) {
    match t
    case TWord(n, a, _) => 1 <= n <= WORD && (a ==> n == ADDRESS_BYTES)
    case TDynamic => true
    case TList(e) => GoodType(e)
    case TTuple(ts) => |ts| > 0 && forall i :: 0 <= i < |ts| ==> GoodType(ts[i])
  }

  /** The type of member `i` of an array type. */
  function MemberType(t: AbiType, i: nat): AbiType
    requires t.TList? || (t.TTuple? && i < |t.members|)
  {
    if t.TList? then t.element else t.members[i]
  }

  /** `is_static`, where it does not panic. */
  predicate IsStatic(v: Abi) {
    match v
    case A256(_, _, _, _) => true
    case ADynamic(_) => false
    case AArray(xs, dyn) => !dyn && forall i :: 0 <= i < |xs| ==> IsStatic(xs[i])
    case AEmpty => true
  }

  /** `is_static` meets an `AEmpty` before it meets a member that is not static. */
  predicate StaticPanics(v: Abi) {
    match v
    case AEmpty => true
    case AArray(xs, dyn) =>
      !dyn && exists i :: 0 <= i < |xs| && StaticPanics(xs[i]) && forall j :: 0 <= j < i ==> IsStatic(xs[j])
    case _ => false
  }

  lemma {:induction false} TypedNeverPanics(v: Abi, t: AbiType)
    requires HasType(v, t)
    ensures !StaticPanics(v)
    decreases v
  {
    if v.AArray? && !v.dynamicSize {
      forall i | 0 <= i < |v.items| ensures !StaticPanics(v.items[i]) {
        TypedNeverPanics(v.items[i], t.members[i]);
      }
    }
  }

  /** `get_size`. */
  function SizeOf(v: Abi): nat {
    match v
    case A256(_, _, _, _) => WORD
    case ADynamic(d) => |d| + WORD
    case AArray(xs, dyn) => Sum(seq(|xs|, i requires 0 <= i < |xs| => SizeOf(xs[i]))) + if dyn then WORD else 0
    case AEmpty => 0
  }

  function Sum(s: seq<nat>): nat {
    if s == [] then 0 else s[0] + Sum(s[1..])
  }

  // ---- encoding ----

  /** What an array's encoder knows of a child: whether it is static, its bytes and its word types. */
  datatype Part = Part(isStatic: bool, enc: Bytes, flags: seq<BasicVarType>)

  /** The child is written in place; the program tests `head[i].len() == 0` instead of `is_static`. */
  predicate InHead(p: Part) { p.isStatic && |p.enc| > 0 }

  /** What the child adds to `head_size`. */
  function HeadCount(p: Part): nat { if p.isStatic then |p.enc| else WORD }

  function HeadSize(ps: seq<Part>): nat {
    if ps == [] then 0 else HeadSize(ps[..|ps| - 1]) + HeadCount(ps[|ps| - 1])
  }

  function TailOf(p: Part): Bytes { if p.isStatic then [] else p.enc }

  function HeadOf(p: Part, offset: nat): Bytes { if InHead(p) then p.enc else SizeWord(offset) }

  function TailPieces(ps: seq<Part>): (r: seq<Bytes>)
    ensures |r| == |ps|
  {
    seq(|ps|, i requires 0 <= i < |ps| => TailOf(ps[i]))
  }

  /** `head_size + tails_offset[i]`: the number an offset word holds. */
  function TailOffset(ps: seq<Part>, i: nat): nat
    requires i <= |ps|
  {
    HeadSize(ps) + StartOf(TailPieces(ps), i)
  }

  function HeadPieces(ps: seq<Part>): (r: seq<Bytes>)
    ensures |r| == |ps|
  {
    seq(|ps|, i requires 0 <= i < |ps| => HeadOf(ps[i], TailOffset(ps, i)))
  }

  /** The children area: all head slots, then all tails. */
  function Area(ps: seq<Part>): seq<Bytes> { HeadPieces(ps) + TailPieces(ps) }

  function HeadFlagsOf(p: Part): seq<BasicVarType> { if InHead(p) then p.flags else [TvOffset] }

  function TailFlagsOf(p: Part): seq<BasicVarType> { if p.isStatic then [] else p.flags }

  function HeadFlagPieces(ps: seq<Part>): (r: seq<seq<BasicVarType>>)
    ensures |r| == |ps|
  {
    seq(|ps|, i requires 0 <= i < |ps| => HeadFlagsOf(ps[i]))
  }

  function TailFlagPieces(ps: seq<Part>): (r: seq<seq<BasicVarType>>)
    ensures |r| == |ps|
  {
    seq(|ps|, i requires 0 <= i < |ps| => TailFlagsOf(ps[i]))
  }

  function FlagArea(ps: seq<Part>): seq<seq<BasicVarType>> { HeadFlagPieces(ps) + TailFlagPieces(ps) }

  function LengthPrefix(dyn: bool, n: nat): Bytes { if dyn then SizeWord(n) else [] }

  function LengthFlag(dyn: bool): seq<BasicVarType> { if dyn then [TvLength] else [] }

  /** `get_bytes`. */
  function Encode(v: Abi): Bytes {
    match v
    case A256(w, _, _, _) => Zeros(WORD - |w|) + w
    case ADynamic(d) => SizeWord(|d|) + d + Zeros(Roundup(|d|) - |d|)
    case AArray(xs, dyn) => LengthPrefix(dyn, |xs|) + Concat(Area(PartsOf(v)))
    case AEmpty => []
  }

  /** `get_basic_types`. */
  function TypesOf(v: Abi): seq<BasicVarType> {
    match v
    case A256(w, a, _, b) => [if a then TvAddress else if b then TvStrBytes(|w|) else TvInt(|w|)]
    case ADynamic(d) =>
      [TvLength] + seq(|d| / WORD, i => TvStrBytes(WORD)) +
      if |d| % WORD != 0 then [TvStrBytes(|d| % WORD)] else []
    case AArray(xs, dyn) => LengthFlag(dyn) + Concat(FlagArea(PartsOf(v)))
    case AEmpty => [TvNone]
  }

  function PartsOf(v: Abi): (ps: seq<Part>)
    requires v.AArray?
    ensures |ps| == |v.items|
    decreases v, 0
  {
    seq(|v.items|, i requires 0 <= i < |v.items| =>
      Part(IsStatic(v.items[i]), Encode(v.items[i]), TypesOf(v.items[i])))
  }

  // ---- decoding ----

  /** The template used for element `i` when the receiver's items are `rs`. */
  function Template(rs: seq<Abi>, i: nat): Abi
    requires |rs| > 0
  {
    if i < |rs| then rs[i] else rs[0]
  }

  /** The receiver's items after the `push` loop and `truncate`. */
  function Resize(rs: seq<Abi>, n: nat): (ts: seq<Abi>)
    requires |rs| > 0
    ensures |ts| == n && forall i :: 0 <= i < n ==> ts[i] == Template(rs, i)
  {
    seq(n, i requires 0 <= i < n => Template(rs, i))
  }

  /** Where a child is read from, and how far the head cursor moves; `None` is a panic. */
  function Locate(t: Abi, body: Bytes, offset: nat): Option<(nat, nat)> {
    match t
    case A256(_, _, _, _) => Some((offset, WORD))
    case AEmpty => Some((0, 0))
    case _ =>
      if StaticPanics(t) then None
      else if t.AArray? && IsStatic(t) then Some((offset, SizeOf(t)))
      else if offset + WORD <= |body| then Some((ReadSize(body[offset..]), WORD))
      else None
  }

  /** `set_bytes`: the receiver after decoding `b`; `None` is a panic (slice or assertion). */
  function Decode(r: Abi, b: Bytes): Option<Abi>
    decreases r
  {
    match r
    case A256(w, a, m, y) =>
      if |b| < WORD then None else Some(A256(b[WORD - |w|..WORD], a, m, y))
    case ADynamic(_) =>
      if b == [] then Some(ADynamic([]))
      else if |b| < WORD || |b| < WORD + ReadSize(b) then None
      else Some(ADynamic(b[WORD..WORD + ReadSize(b)]))
    case AEmpty => if b == [] then Some(AEmpty) else None
    case AArray(rs, dyn) =>
      if dyn && |b| < WORD then None
      else
        var n := if dyn then ReadSize(b) else |rs|;
        var body := if dyn then b[WORD..] else b;
        if n == 0 then Some(AArray([], dyn))
        else if rs == [] then (if body == [] then Some(AArray(seq(n, i => AEmpty), dyn)) else None)
        else
          match DecodeItems(r, Resize(rs, n), body, 0)
          case Some(xs) => Some(AArray(xs, dyn))
          case None => None
  }

  /** The loop over the receiver's items, from head position `offset` on. */
  function DecodeItems(r: Abi, ts: seq<Abi>, body: Bytes, offset: nat): Option<seq<Abi>>
    requires r.AArray? && forall i :: 0 <= i < |ts| ==> ts[i] in r.items
    decreases r, |ts|
  {
    if ts == [] then Some([])
    else
      match Locate(ts[0], body, offset)
      case None => None
      case Some((at, size)) =>
        if at > |body| then None
        else
          match Decode(ts[0], body[at..])
          case None => None
          case Some(x) =>
            match DecodeItems(r, ts[1..], body, offset + size)
            case None => None
            case Some(xs) => Some([x] + xs)
  }
}
