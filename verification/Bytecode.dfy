/** Where instructions start in EVM bytecode, and three loops that walk over them. */
module Bytecode {
  import opened Words

  const PUSH1 := 0x60
  const PUSH32 := 0x7f
  const JUMPI := 0x57

  predicate IsPush(op: Byte) { PUSH1 <= op <= PUSH32 }

  /** How many bytes a push carries. */
  function PayloadSize(op: Byte): nat { if IsPush(op) then op - PUSH1 + 1 else 0 }

  /** The opcode and its payload. */
  function Width(op: Byte): (w: nat)
    ensures w >= 1
  {
    1 + PayloadSize(op)
  }

  /** The instruction starts from `pc` on. */
  function StartsFrom(code: Bytes, pc: nat): seq<nat>
    decreases |code| - pc
  {
    if pc >= |code| then [] else [pc] + StartsFrom(code, pc + Width(code[pc]))
  }

  function Starts(code: Bytes): seq<nat> { StartsFrom(code, 0) }

  /** The instruction at `pc` ends at `end`: opcodes 0x60 to 0x7f carry 1 to 32 bytes, all others none. */
  ghost predicate EndsAt(code: Bytes, pc: nat, end: nat) {
    pc < |code| && end == if 0x60 <= code[pc] <= 0x7f then pc + (code[pc] - 0x5e) else pc + 1
  }

  /** A walk over whole instructions, from the first byte of the code. */
  ghost predicate WalkTo(code: Bytes, ws: seq<nat>) {
    && |ws| > 0 && ws[0] == 0
    && (forall k :: 0 <= k < |ws| ==> ws[k] < |code|)
    && (forall k :: 0 <= k < |ws| - 1 ==> EndsAt(code, ws[k], ws[k + 1]))
  }

  lemma {:induction false} StartsFromChain(code: Bytes, pc: nat, k: nat)
    requires k < |StartsFrom(code, pc)|
    ensures var s := StartsFrom(code, pc);
            && pc <= s[k] < |code| && s[0] == pc
            && (if k + 1 < |s| then s[k + 1] == s[k] + Width(code[s[k]]) else s[k] + Width(code[s[k]]) >= |code|)
    decreases |code| - pc
  {
    var next := pc + Width(code[pc]);
    var rest := StartsFrom(code, next);
    if k > 0 {
      StartsFromChain(code, next, k - 1);
    } else if rest != [] {
      StartsFromChain(code, next, 0);
    }
  }

  /** The starts begin at zero, each next one is where the last instruction ends, up to the end of the code. */
  lemma {:induction false} StartsChain(code: Bytes, k: nat)
    requires k < |Starts(code)|
    ensures var s := Starts(code);
            && s[k] < |code| && s[0] == 0
            && if k + 1 < |s| then EndsAt(code, s[k], s[k + 1])
               else exists end: nat :: EndsAt(code, s[k], end) && end >= |code|
  {
    StartsFromChain(code, 0, k);
    var pc := Starts(code)[k];
    assert EndsAt(code, pc, pc + Width(code[pc]));
  }

  lemma {:induction false} WalkFollowsStarts(code: Bytes, ws: seq<nat>, k: nat)
    requires WalkTo(code, ws) && k < |ws|
    ensures k < |Starts(code)| && Starts(code)[k] == ws[k]
  {
    if k > 0 {
      WalkFollowsStarts(code, ws, k - 1);
      StartsChain(code, k - 1);
      assert EndsAt(code, ws[k - 1], ws[k - 1 + 1]);
    }
  }

  /** A position is a start exactly when a walk from zero over whole instructions gets there. */
  lemma {:induction false} StartIffWalk(code: Bytes, pc: nat)
    ensures pc in Starts(code) <==> exists ws :: WalkTo(code, ws) && ws[|ws| - 1] == pc
  {
    if pc in Starts(code) {
      var k :| 0 <= k < |Starts(code)| && Starts(code)[k] == pc;
      var ws := Starts(code)[..k + 1];
      StartsChain(code, 0);
      forall i | 0 <= i < |ws| ensures ws[i] < |code| {
        StartsChain(code, i);
      }
      forall i | 0 <= i < |ws| - 1 ensures EndsAt(code, ws[i], ws[i + 1]) {
        StartsChain(code, i);
      }
      assert WalkTo(code, ws) && ws[|ws| - 1] == pc;
    }
    if ws :| WalkTo(code, ws) && ws[|ws| - 1] == pc {
      WalkFollowsStarts(code, ws, |ws| - 1);
    }
  }

  lemma {:induction false} StartsStep(code: Bytes, pc: nat)
    requires pc < |code|
    ensures StartsFrom(code, pc) == [pc] + StartsFrom(code, pc + Width(code[pc]))
  {}

  /** Padding behind the code adds starts at the end and changes none before. */
  lemma {:induction false} StartsOfPadded(bytes: Bytes, len: nat, pc: nat)
    requires len <= |bytes|
    ensures StartsFrom(bytes[..len], pc) <= StartsFrom(bytes, pc)
    ensures forall k :: |StartsFrom(bytes[..len], pc)| <= k < |StartsFrom(bytes, pc)| ==>
            StartsFrom(bytes, pc)[k] >= len
    decreases |bytes| - pc
  {
    if pc < |bytes| {
      var next := pc + Width(bytes[pc]);
      StartsOfPadded(bytes, len, next);
      StartsStep(bytes, pc);
      if pc >= len {
        StartsAfter(bytes, pc);
      } else {
        StartsStep(bytes[..len], pc);
      }
    }
  }

  lemma StartsAfter(code: Bytes, pc: nat)
    ensures forall k :: 0 <= k < |StartsFrom(code, pc)| ==> StartsFrom(code, pc)[k] >= pc
  {
    forall k | 0 <= k < |StartsFrom(code, pc)| ensures StartsFrom(code, pc)[k] >= pc {
      StartsFromChain(code, pc, k);
    }
  }

  /** `instructions_pc`. */
  method InstructionsPc(code: Bytes) returns (pcs: seq<nat>)
    ensures pcs == Starts(code)
  {
    var i := 0;
    pcs := [];
    while i < |code|
      invariant pcs + StartsFrom(code, i) == Starts(code)
      decreases |code| - i
    {
      StartsStep(code, i);
      assert pcs + ([i] + StartsFrom(code, i + Width(code[i]))) == (pcs + [i]) + StartsFrom(code, i + Width(code[i]));
      var op := code[i];
      pcs := pcs + [i];
      i := i + 1;
      if op >= 0x60 && op <= 0x7f {
        i := i + (op - 0x5f);
      }
    }
  }

  // ---- constants ----

  /** A push at `pc` whose payload of at least two bytes is complete and is not a jump target. */
  predicate IsConstant(code: Bytes, pc: nat)
    requires pc < |code|
  {
    && PayloadSize(code[pc]) >= 2
    && pc + Width(code[pc]) <= |code|
    && (pc + Width(code[pc]) < |code| ==> code[pc + Width(code[pc])] != JUMPI)
  }

  function Payload(code: Bytes, pc: nat): Bytes
    requires pc < |code| && pc + Width(code[pc]) <= |code|
  {
    code[pc + 1..pc + Width(code[pc])]
  }

  /** The constants at the starts from `pc` on. */
  ghost function ConstantsFrom(code: Bytes, pc: nat): set<Bytes> {
    set p | p in StartsFrom(code, pc) && p < |code| && IsConstant(code, p) :: Payload(code, p)
  }

  lemma {:induction false} ConstantsStep(code: Bytes, pc: nat)
    requires pc < |code|
    ensures ConstantsFrom(code, pc) ==
            ConstantsFrom(code, pc + Width(code[pc])) + if IsConstant(code, pc) then {Payload(code, pc)} else {}
  {
    StartsStep(code, pc);
    var rest := StartsFrom(code, pc + Width(code[pc]));
    assert forall p :: p in [pc] + rest <==> p == pc || p in rest;
  }

  /**
   * The code pushes `data` at one of its starts: two or more bytes, all of them inside the code, and
   * not the target of a conditional jump.
   */
  ghost predicate Pushes(code: Bytes, pc: nat, data: Bytes) {
    && pc in Starts(code) && pc < |code| && 0x61 <= code[pc] <= 0x7f
    && var end := pc + (code[pc] - 0x5e);
       end <= |code| && data == code[pc + 1..end] && (end < |code| ==> code[end] != 0x57)
  }

  lemma ConstantIff(code: Bytes, data: Bytes)
    ensures data in ConstantsFrom(code, 0) <==> exists pc :: Pushes(code, pc, data)
  {
    if data in ConstantsFrom(code, 0) {
      var pc :| pc in StartsFrom(code, 0) && pc < |code| && IsConstant(code, pc) && Payload(code, pc) == data;
      assert Pushes(code, pc, data);
    }
    if pc :| Pushes(code, pc, data) {
      assert IsConstant(code, pc) && Payload(code, pc) == data;
    }
  }

  /** The inner loop of `find_constants`. */
  method CopyPayload(bytes: Bytes, idx: nat, n: nat) returns (data: Bytes)
    requires idx + n < |bytes|
    ensures data == bytes[idx + 1..idx + 1 + n]
  {
    var buffer := new Byte[n](_ => 0);
    var i := 0;
    while i < n
      invariant 0 <= i <= n
      invariant buffer[..i] == bytes[idx + 1..idx + 1 + i]
    {
      buffer[i] := bytes[idx + i + 1];
      i := i + 1;
    }
    data := buffer[..];
    assert data == buffer[..n];
  }

  /**
   * `find_constants`: `bytes` may be longer than the code by padding, `len` is the length of the code.
   * Reading stays inside the code.
   */
  method FindConstants(bytes: Bytes, len: nat) returns (constants: set<Bytes>)
    requires len <= |bytes|
    ensures constants == ConstantsFrom(bytes[..len], 0)
    ensures forall data :: data in constants <==> exists pc :: Pushes(bytes[..len], pc, data)
  {
    forall data: Bytes ensures data in ConstantsFrom(bytes[..len], 0) <==> exists pc :: Pushes(bytes[..len], pc, data) {
      ConstantIff(bytes[..len], data);
    }
    ghost var code, all := bytes[..len], ConstantsFrom(bytes[..len], 0);
    constants := {};
    var idx := 0;
    while idx < len
      invariant Collected(code, idx, constants, all)
      decreases len - idx
    {
      var op := bytes[idx];
      if 0x60 <= op <= 0x7f && len < idx + (op - 0x5e) {
        LastPush(code, idx);
        return;
      }
      var found := ConstantAt(bytes, len, idx);
      CollectedNext(code, idx, constants, found, all);
      constants := constants + found;
      idx := if 0x60 <= op <= 0x7f then idx + (op - 0x5e) else idx + 1;
    }
    NoneBeyond(code, idx);
  }

  /** What has been found, and what is still to be found from `pc` on, make up the whole. */
  ghost predicate Collected(code: Bytes, pc: nat, found: set<Bytes>, all: set<Bytes>) {
    found + ConstantsFrom(code, pc) == all
  }

  lemma CollectedNext(code: Bytes, pc: nat, constants: set<Bytes>, found: set<Bytes>, all: set<Bytes>)
    requires pc < |code| && Collected(code, pc, constants, all)
    requires found == if IsConstant(code, pc) then {Payload(code, pc)} else {}
    ensures Collected(code, pc + Width(code[pc]), constants + found, all)
  {
    ConstantsStep(code, pc);
    Absorb(constants, ConstantsFrom(code, pc + Width(code[pc])), found);
  }

  lemma Absorb<T>(a: set<T>, b: set<T>, c: set<T>)
    ensures a + (b + c) == a + c + b
  {}

  lemma {:induction false} NoneBeyond(code: Bytes, pc: nat)
    requires pc >= |code|
    ensures ConstantsFrom(code, pc) == {}
  {}

  /** A push that the code's end cuts off is the last instruction, and no constant. */
  lemma LastPush(code: Bytes, pc: nat)
    requires pc < |code| < pc + Width(code[pc])
    ensures ConstantsFrom(code, pc) == {}
  {
    ConstantsStep(code, pc);
    NoneBeyond(code, pc + Width(code[pc]));
  }

  /** The body of `find_constants`: what the instruction at `idx` adds. */
  method ConstantAt(bytes: Bytes, len: nat, idx: nat) returns (found: set<Bytes>)
    requires idx < len <= |bytes|
    ensures found == if IsConstant(bytes[..len], idx) then {Payload(bytes[..len], idx)} else {}
  {
    var op := bytes[idx];
    found := {};
    if 0x60 <= op <= 0x7f && idx + (op - 0x5e) <= len {
      var shouldSkip := idx + (op - 0x5e) < len && bytes[idx + (op - 0x5e)] == 0x57;
      if !shouldSkip && op - 0x60 + 1 >= 2 {
        var data := CopyPayload(bytes, idx, op - 0x60 + 1);
        assert bytes[..len][idx + 1..idx + (op - 0x5e)] == bytes[idx + 1..idx + (op - 0x5e)];
        found := {data};
      }
    }
  }
}
