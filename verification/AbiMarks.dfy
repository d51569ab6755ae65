/** What decoding takes from its receiver, and what from the bytes. */
module AbiMarks {
  import opened Words
  import opened AbiCodec

  /** `d` has the shape of template `r`, and each word the width and the marks of its template's word. */
  ghost predicate Keeps(d: Abi, r: Abi)
    decreases d
  {
    match d
    case A256(w, a, dont, b) => r.A256? && |w| == |r.word| && a == r.isAddress && dont == r.dontMutate && b == r.isBytes
    case ADynamic(_) => r.ADynamic?
    case AEmpty => r.AEmpty?
    case AArray(xs, dyn) =>
      && r.AArray? && dyn == r.dynamicSize && (!dyn ==> |xs| == |r.items|)
      && forall i :: 0 <= i < |xs| ==> Keeps(xs[i], TemplateOf(r.items, i))
  }

  /** Item `i` is read into the receiver's own; beyond them into copies of the first, or, without any, of `AEmpty`. */
  function TemplateOf(rs: seq<Abi>, i: nat): Abi {
    if i < |rs| then rs[i] else if rs != [] then rs[0] else AEmpty
  }

  lemma {:induction false} ItemsKeep(r: Abi, ts: seq<Abi>, body: Bytes, offset: nat, xs: seq<Abi>)
    requires r.AArray? && forall i :: 0 <= i < |ts| ==> ts[i] in r.items
    requires DecodeItems(r, ts, body, offset) == Some(xs)
    ensures |xs| == |ts| && forall i :: 0 <= i < |xs| ==> Keeps(xs[i], ts[i])
    decreases r, |ts|
  {
    if ts != [] {
      var place := Locate(ts[0], body, offset).value;
      DecodeKeeps(ts[0], body[place.0..]);
      ItemsKeep(r, ts[1..], body, offset + place.1, xs[1..]);
      forall i | 0 <= i < |xs| ensures Keeps(xs[i], ts[i]) {
        if i > 0 {
          assert xs[i] == xs[1..][i - 1] && ts[i] == ts[1..][i - 1];
        }
      }
    }
  }

  /** Decoding changes data only: widths, marks and shape stay those of the receiver's templates. */
  lemma {:induction false} DecodeKeeps(r: Abi, b: Bytes)
    requires Decode(r, b).Some?
    ensures Keeps(Decode(r, b).value, r)
    decreases r
  {
    if r.AArray? && r.items != [] && Decode(r, b).value.items != [] {
      var body := if r.dynamicSize then b[WORD..] else b;
      var xs := Decode(r, b).value.items;
      var n := if r.dynamicSize then ReadSize(b) else |r.items|;
      ItemsKeep(r, Resize(r.items, n), body, 0, xs);
    }
  }

  /**
   * A word is the last bytes of the first 32; a byte string has the length that the first 32 state,
   * and follows them; neither panics unless these bytes are missing.
   */
  lemma LeafRead(r: Abi, b: Bytes)
    requires r.A256? || r.ADynamic?
    ensures r.A256? ==> (Decode(r, b).Some? <==> |b| >= 32)
    ensures r.ADynamic? ==> (Decode(r, b).Some? <==> b == [] || (|b| >= 32 && |b| >= 32 + ReadSize(b)))
    ensures r.A256? && |b| >= 32 ==>
            forall j :: 0 <= j < |r.word| ==> Decode(r, b).value.word[j] == b[32 - |r.word| + j]
    ensures r.ADynamic? && Decode(r, b).Some? ==>
            var d := Decode(r, b).value.data;
            |d| == (if b == [] then 0 else ReadSize(b)) && forall j :: 0 <= j < |d| ==> d[j] == b[32 + j]
  {}
}
