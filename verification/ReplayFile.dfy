/** The replay file: how recorded transactions are written down and read again. */
module ReplayFile {
  import opened Words
  import opened Text
  import opened SnapshotTrace

  const U8 := 0x100
  const U32 := 0x1_0000_0000
  const U64 := 0x1_0000_0000_0000_0000
  const U256 := U64 * U64 * U64 * U64

  const LIQ_MARK := "liq percent: "
  const STEP_MARK := "Stepping with return"

  /** `BasicTxn`; the call data stands for the encoded `data_abi`. */
  datatype BasicTxn = BasicTxn(
    caller: Bytes, contract: Bytes, data: Option<string>, dataAbi: Option<Bytes>, value: Option<nat>,
    additionalInfo: Option<Bytes>)

  /** Addresses have 20 bytes and values are 256-bit. */
  ghost predicate Encodable(t: BasicTxn) {
    |t.caller| == 20 && |t.contract| == 20 && (t.value.Some? ==> t.value.value < U256)
  }

  // ---- writing ----

  /** The text after the first marker, up to the second; the whole text without a marker. */
  function LiqText(data: string): string {
    match Find(data, LIQ_MARK)
    case None => data
    case Some(i) =>
      var rest := data[i + |LIQ_MARK|..];
      match Find(rest, LIQ_MARK)
      case None => rest
      case Some(k) => rest[..k]
  }

  function GetOr<T>(x: Option<T>, otherwise: T): T {
    if x.Some? then x.value else otherwise
  }

  function LiqPercent(t: BasicTxn): nat {
    if t.data.None? then 0 else GetOr(ParseUint(LiqText(t.data.value), U64), 0)
  }

  predicate Mentions(t: BasicTxn, part: string) { t.data.Some? && Contains(t.data.value, part) }

  function Address(a: Bytes): string { "0x" + HexEncode(a) }

  predicate IsBorrow(t: BasicTxn) { t.dataAbi.None? && Mentions(t, "Borrow") }

  predicate IsTransfer(t: BasicTxn) { t.dataAbi.None? && !Mentions(t, "Borrow") && Mentions(t, "ABI") }

  /** The first byte of the additional info, and zero if there is none. */
  function CallLimit(t: BasicTxn): Byte {
    if t.additionalInfo.None? || t.additionalInfo.value == [] then 0 else t.additionalInfo.value[0]
  }

  /** What the writer can print; anything else makes it panic. */
  predicate Printable(t: BasicTxn) {
    if IsBorrow(t) then t.additionalInfo.Some?
    else (t.dataAbi.Some? || IsTransfer(t)) && t.additionalInfo != Some([])
  }

  /** The columns of a call, up to the step flag. */
  function AbiColumns(caller: string, contract: string, input: string, value: string, liq: string,
      limit: string): (w: seq<string>)
    ensures |w| == 9
  {
    ["abi", caller, contract, input, value, liq, "0", "1", limit]
  }

  function BorrowColumns(caller: string, contract: string, randomness: string, value: string,
      liq: string): (w: seq<string>)
    ensures |w| == 7
  {
    ["borrow", caller, contract, randomness, value, liq, "0"]
  }

  function StepFlag(step: bool): string { if step then "true" else "false" }

  /** The columns of one line. */
  function Columns(t: BasicTxn): Option<seq<string>> {
    var value, liq := Decimal(GetOr(t.value, 0)), Decimal(LiqPercent(t));
    match t.dataAbi
    case None =>
      if Mentions(t, "Borrow") then
        if t.additionalInfo.None? then None
        else Some(BorrowColumns(Address(t.caller), Address(t.contract), HexEncode(t.additionalInfo.value), value, liq))
      else if Mentions(t, "ABI") then
        if t.additionalInfo == Some([]) then None
        else Some(AbiColumns(Address(t.caller), Address(t.contract), "00", value, liq, Decimal(CallLimit(t))))
      else None
    case Some(bytes) =>
      if t.additionalInfo == Some([]) then None
      else
        Some(AbiColumns(Address(t.caller), Address(t.contract), HexEncode(bytes), value, liq, Decimal(CallLimit(t)))
             + [StepFlag(Mentions(t, STEP_MARK))])
  }

  function Show(t: BasicTxn): Option<string> {
    match Columns(t)
    case None => None
    case Some(columns) => Some(Terminated(columns, ' ') + "\n")
  }

  // ---- reading ----

  datatype Kind = ABI | Borrow

  /** The `EVMInput` a line gives, with the `CALL_UNTIL` in force while it runs. */
  datatype ReplayInput = ReplayInput(
    kind: Kind, caller: Bytes, contract: Bytes, directData: Bytes, randomness: Bytes, value: Option<nat>,
    liquidationPercent: nat, warpTo: nat, repeat: nat, step: bool, callUntil: nat)

  datatype Outcome = Skipped | Panicked | Ready(input: ReplayInput)

  function ParseAddress(s: string): Option<Bytes> {
    var a := HexDecode(if |s| >= 2 && s[..2] == "0x" then s[2..] else s);
    if a.Some? && |a.value| == 20 then a else None
  }

  function ParseValue(s: string): Option<nat> {
    if AllDigits(s) && s != "" && DigitsValue(s) < U256 then Some(DigitsValue(s)) else None
  }

  function NonZero(v: nat): Option<nat> { if v == 0 then None else Some(v) }

  function ParseColumns(w: seq<string>): Outcome {
    if |w| < 4 then Skipped
    else if w[0] == "abi" then ParseAbi(w)
    else if w[0] == "borrow" then ParseBorrow(w)
    else Panicked
  }

  function ParseAbi(w: seq<string>): Outcome
    requires |w| >= 4
  {
    if |w| < 10 then Panicked
    else
      match (ParseAddress(w[1]), ParseAddress(w[2]), HexDecode(w[3]), ParseValue(w[4]))
      case (Some(caller), Some(contract), Some(input), Some(value)) =>
        Ready(ReplayInput(
                ABI, caller, contract, if input == [0] then [] else input, [], NonZero(value),
                GetOr(ParseUint(w[5], U8), 0), GetOr(ParseUint(w[6], U64), 0), GetOr(ParseUint(w[7], U64), 0),
                w[9] == "true", GetOr(ParseUint(w[8], U32), U32 - 1)))
      case _ => Panicked
  }

  function ParseBorrow(w: seq<string>): Outcome
    requires |w| >= 4
  {
    if |w| < 7 then Panicked
    else
      match (ParseAddress(w[1]), ParseAddress(w[2]), HexDecode(w[3]), ParseValue(w[4]))
      case (Some(caller), Some(contract), Some(randomness), Some(value)) =>
        Ready(ReplayInput(
                Borrow, caller, contract, [], randomness, NonZero(value),
                0, GetOr(ParseUint(w[6], U64), 0), 1, false, U32 - 1))
      case _ => Panicked
  }

  function ParseLine(line: string): Outcome { ParseColumns(Split(line, ' ')) }

  /** The inputs of the lines before the first one that panics. */
  function Replayed(lines: seq<string>, parse: string -> Outcome): (seq<ReplayInput>, bool) {
    if lines == [] then ([], true)
    else
      var (inputs, ok) := Replayed(lines[..|lines| - 1], parse);
      if !ok then (inputs, false)
      else
        match parse(lines[|lines| - 1])
        case Skipped => (inputs, true)
        case Panicked => (inputs, false)
        case Ready(input) => (inputs + [input], true)
  }

  /** The reader's loop over the lines of a file. */
  method ReadFile(text: string) returns (inputs: seq<ReplayInput>, ok: bool)
    ensures (inputs, ok) == Replayed(Split(text, '\n'), ParseLine)
  {
    var lines := Split(text, '\n');
    inputs, ok := [], true;
    for i := 0 to |lines|
      invariant ok && (inputs, ok) == Replayed(lines[..i], ParseLine)
    {
      assert lines[..i + 1][..i] == lines[..i];
      match ParseLine(lines[i])
      case Skipped =>
      case Panicked =>
        PanicEnds(lines, i + 1, ParseLine);
        return inputs, false;
      case Ready(input) =>
        inputs := inputs + [input];
    }
    assert lines[..|lines|] == lines;
  }

  lemma {:induction false} PanicEnds(lines: seq<string>, n: nat, parse: string -> Outcome)
    requires n <= |lines| && !Replayed(lines[..n], parse).1
    ensures Replayed(lines, parse) == Replayed(lines[..n], parse)
    decreases |lines|
  {
    if n == |lines| {
      assert lines[..n] == lines;
    } else {
      var init := lines[..|lines| - 1];
      assert init[..n] == lines[..n];
      PanicEnds(init, n, parse);
    }
  }

  // ---- reading what was written ----

  /** `input` is transaction `t` again, as far as the file can tell. */
  ghost predicate Replays(t: BasicTxn, input: ReplayInput) {
    && input.caller == t.caller && input.contract == t.contract
    && (input.kind == Borrow <==> IsBorrow(t))
    && input.value == (if t.value == Some(0) then None else t.value)
    && input.warpTo == 0 && input.repeat == 1
    && (IsBorrow(t) ==> (
      && t.additionalInfo == Some(input.randomness) && input.directData == []
      && !input.step && input.callUntil == U32 - 1 && input.liquidationPercent == 0))
    && (!IsBorrow(t) ==> (
      && input.randomness == []
      && input.directData == Calldata(t)
      && input.callUntil == CallLimit(t)
      && input.liquidationPercent == (if LiqPercent(t) < U8 then LiqPercent(t) else 0)
      && input.step == (t.dataAbi.Some? && Mentions(t, STEP_MARK))))
  }

  /** A transfer has no call data; a single zero byte is the file's spelling of that. */
  function Calldata(t: BasicTxn): Bytes {
    if t.dataAbi.None? || t.dataAbi == Some([0]) then [] else t.dataAbi.value
  }

  lemma AddressReadsBack(a: Bytes)
    requires |a| == 20
    ensures ParseAddress(Address(a)) == Some(a) && Plain(Address(a))
  {
    assert Address(a)[..2] == "0x" && Address(a)[2..] == HexEncode(a);
    HexReadsBack(a);
    HexPlain(a);
  }

  lemma ValueReadsBack(v: nat)
    ensures ParseValue(Decimal(v)) == if v < U256 then Some(v) else None
  {
    DecimalReadsBack(v);
  }

  ghost predicate AllPlain(w: seq<string>) { forall i :: 0 <= i < |w| ==> Plain(w[i]) }

  lemma AbiColumnsPlain(caller: string, contract: string, input: string, value: string, liq: string, limit: string)
    requires Plain(caller) && Plain(contract) && Plain(input) && Plain(value) && Plain(liq) && Plain(limit)
    ensures AllPlain(AbiColumns(caller, contract, input, value, liq, limit))
  {}

  lemma BorrowColumnsPlain(caller: string, contract: string, randomness: string, value: string, liq: string)
    requires Plain(caller) && Plain(contract) && Plain(randomness) && Plain(value) && Plain(liq)
    ensures AllPlain(BorrowColumns(caller, contract, randomness, value, liq))
  {}

  lemma ColumnsPlain(t: BasicTxn)
    requires Encodable(t) && Columns(t).Some?
    ensures AllPlain(Columns(t).value)
  {
    var caller, contract, value, liq, limit := Address(t.caller), Address(t.contract), Decimal(GetOr(t.value, 0)),
        Decimal(LiqPercent(t)), Decimal(CallLimit(t));
    AddressReadsBack(t.caller);
    AddressReadsBack(t.contract);
    DecimalPlain(GetOr(t.value, 0));
    DecimalPlain(LiqPercent(t));
    DecimalPlain(CallLimit(t));
    if t.dataAbi.Some? {
      HexPlain(t.dataAbi.value);
      AbiColumnsPlain(caller, contract, HexEncode(t.dataAbi.value), value, liq, limit);
      assert Plain(StepFlag(Mentions(t, STEP_MARK)));
    } else if Mentions(t, "Borrow") {
      HexPlain(t.additionalInfo.value);
      BorrowColumnsPlain(caller, contract, HexEncode(t.additionalInfo.value), value, liq);
    } else {
      AbiColumnsPlain(caller, contract, "00", value, liq, limit);
    }
  }

  lemma SmallNumbers()
    ensures ParseUint("0", U64) == Some(0) && ParseUint("1", U64) == Some(1) && HexDecode("00") == Some([0])
  {
    ParseDecimal(0, U64);
    ParseDecimal(1, U64);
    assert Decimal(0) == "0" && Decimal(1) == "1";
    HexReadsBack([0]);
    assert HexEncode([0]) == "00";
  }

  /** Reading the columns of a call; the step flag is the tenth. */
  lemma AbiColumnsParse(w: seq<string>, caller: string, contract: string, input: string, value: string, liq: string,
      limit: string)
    requires |w| >= 10 && w[..9] == AbiColumns(caller, contract, input, value, liq, limit)
    requires ParseAddress(caller).Some? && ParseAddress(contract).Some? && HexDecode(input).Some?
             && ParseValue(value).Some?
    ensures ParseColumns(w) ==
            Ready(ReplayInput(
                    ABI, ParseAddress(caller).value, ParseAddress(contract).value,
                    if HexDecode(input).value == [0] then [] else HexDecode(input).value, [],
                    NonZero(ParseValue(value).value), GetOr(ParseUint(liq, U8), 0), 0, 1,
                    w[9] == "true", GetOr(ParseUint(limit, U32), U32 - 1)))
  {
    SmallNumbers();
    var c := AbiColumns(caller, contract, input, value, liq, limit);
    assert forall i :: 0 <= i < 9 ==> w[i] == c[i];
    assert w[0] == "abi" && w[1] == caller && w[2] == contract && w[3] == input && w[4] == value;
    assert w[5] == liq && w[6] == "0" && w[7] == "1" && w[8] == limit;
  }

  lemma BorrowColumnsParse(w: seq<string>, caller: string, contract: string, randomness: string, value: string,
      liq: string)
    requires |w| >= 7 && w[..7] == BorrowColumns(caller, contract, randomness, value, liq)
    requires ParseAddress(caller).Some? && ParseAddress(contract).Some? && HexDecode(randomness).Some?
             && ParseValue(value).Some?
    ensures ParseColumns(w) ==
            Ready(ReplayInput(
                    Borrow, ParseAddress(caller).value, ParseAddress(contract).value,
                    [], HexDecode(randomness).value, NonZero(ParseValue(value).value),
                    0, 0, 1, false, U32 - 1))
  {
    SmallNumbers();
    var c := BorrowColumns(caller, contract, randomness, value, liq);
    assert forall i :: 0 <= i < 7 ==> w[i] == c[i];
    assert w[0] == "borrow" && w[1] == caller && w[2] == contract && w[3] == randomness && w[4] == value && w[6] == "0";
    assert |w[0]| == 6;
  }

  ghost predicate Reads(t: BasicTxn, r: Outcome) { r.Ready? && Replays(t, r.input) }

  lemma BorrowReadsBack(t: BasicTxn)
    requires Encodable(t) && IsBorrow(t) && Printable(t)
    ensures Columns(t).Some? && Reads(t, ParseColumns(Columns(t).value + [""]))
  {
    AddressReadsBack(t.caller);
    AddressReadsBack(t.contract);
    ValueReadsBack(GetOr(t.value, 0));
    HexReadsBack(t.additionalInfo.value);
    var w := Columns(t).value + [""];
    assert w[..7] == Columns(t).value;
    BorrowColumnsParse(w, Address(t.caller), Address(t.contract), HexEncode(t.additionalInfo.value),
        Decimal(GetOr(t.value, 0)), Decimal(LiqPercent(t)));
  }

  lemma AbiReadsBack(t: BasicTxn, w: seq<string>, input: string)
    requires Encodable(t) && !IsBorrow(t) && |w| >= 10
    requires w[..9] ==
             AbiColumns(Address(t.caller), Address(t.contract), input, Decimal(GetOr(t.value, 0)),
                 Decimal(LiqPercent(t)), Decimal(CallLimit(t)))
    requires HexDecode(input) == Some(GetOr(t.dataAbi, [0]))
             && (w[9] == "true" <==> t.dataAbi.Some? && Mentions(t, STEP_MARK))
    ensures Reads(t, ParseColumns(w))
  {
    AddressReadsBack(t.caller);
    AddressReadsBack(t.contract);
    ValueReadsBack(GetOr(t.value, 0));
    ParseDecimal(LiqPercent(t), U8);
    ParseDecimal(CallLimit(t), U32);
    AbiColumnsParse(w, Address(t.caller), Address(t.contract), input, Decimal(GetOr(t.value, 0)),
        Decimal(LiqPercent(t)), Decimal(CallLimit(t)));
  }

  /** One printed line, without its line end, reads back as the transaction. */
  lemma LineReadsBack(t: BasicTxn)
    requires Encodable(t) && Printable(t)
    ensures Columns(t).Some? && Without(Terminated(Columns(t).value, ' '), '\n')
    ensures Reads(t, ParseLine(Terminated(Columns(t).value, ' ')))
  {
    if IsBorrow(t) {
      BorrowReadsBack(t);
    } else if t.dataAbi.Some? {
      HexReadsBack(t.dataAbi.value);
      AbiReadsBack(t, Columns(t).value + [""], HexEncode(t.dataAbi.value));
    } else {
      SmallNumbers();
      AbiReadsBack(t, Columns(t).value + [""], "00");
    }
    ColumnsPlain(t);
    var w := Columns(t).value;
    assert forall i :: 0 <= i < |w| ==> Plain(w[i]) && Without(w[i], ' ') && Without(w[i], '\n');
    SplitTerminated(w, ' ');
    TerminatedWithout(w, ' ', '\n');
  }

  /** The words of a printed line, one by one: what the program writes for a loan, a transfer and a call. */
  ghost predicate Written(t: BasicTxn, w: seq<string>) {
    var loan := t.dataAbi.None? && t.data.Some? && Contains(t.data.value, "Borrow");
    && |w| == (if loan then 8 else if t.dataAbi.Some? then 11 else 10) && w[|w| - 1] == ""
    && w[0] == (if loan then "borrow" else "abi")
    && w[1] == "0x" + HexEncode(t.caller) && w[2] == "0x" + HexEncode(t.contract)
    && w[3] == (if loan then HexEncode(GetOr(t.additionalInfo, []))
                else if t.dataAbi.Some? then HexEncode(t.dataAbi.value) else "00")
    && w[4] == Decimal(if t.value.Some? then t.value.value else 0) && w[5] == Decimal(LiqPercent(t)) && w[6] == "0"
    && (!loan ==>
          && w[7] == "1"
          && w[8] == Decimal(if t.additionalInfo.Some? && t.additionalInfo.value != [] then t.additionalInfo.value[0]
                             else 0))
    && (t.dataAbi.Some? ==>
          w[9] == if t.data.Some? && Contains(t.data.value, "Stepping with return") then "true" else "false")
  }

  lemma LineIsWritten(t: BasicTxn)
    requires Encodable(t) && Printable(t)
    ensures Show(t).Some? && |Show(t).value| > 0
    ensures var line := Show(t).value;
            line[|line| - 1] == '\n' && Written(t, Split(line[..|line| - 1], ' '))
  {
    LineReadsBack(t);
    ColumnsPlain(t);
    var w := Columns(t).value;
    assert forall i :: 0 <= i < |w| ==> Plain(w[i]) && Without(w[i], ' ');
    SplitTerminated(w, ' ');
    var line := Show(t).value;
    assert line[..|line| - 1] == Terminated(w, ' ');
    ColumnsWritten(t);
  }

  lemma ColumnsWritten(t: BasicTxn)
    requires Printable(t)
    ensures Columns(t).Some? && Written(t, Columns(t).value + [""])
  {}

  /**
   * What the reader makes of the words of any line: fewer than four are skipped; it panics unless they
   * are a call with its ten words or a loan with its seven, the addresses, the hexadecimal data and the
   * value well-formed.
   */
  lemma ReaderPanicsIff(w: seq<string>)
    ensures ParseColumns(w).Skipped? <==> |w| < 4
    ensures ParseColumns(w).Panicked? <==>
            && |w| >= 4
            && !(&& ((w[0] == "abi" && |w| >= 10) || (w[0] == "borrow" && |w| >= 7))
                 && ParseAddress(w[1]).Some? && ParseAddress(w[2]).Some?
                 && HexDecode(w[3]).Some? && ParseValue(w[4]).Some?)
  {}

  /** And if it does not, which word gives what; a number that cannot be read gives its default. */
  lemma ReaderGives(w: seq<string>)
    requires ParseColumns(w).Ready?
    ensures var input := ParseColumns(w).input;
            && Some(input.caller) == ParseAddress(w[1]) && Some(input.contract) == ParseAddress(w[2])
            && input.value == (if ParseValue(w[4]) == Some(0) then None else ParseValue(w[4]))
            && input.warpTo == GetOr(ParseUint(w[6], U64), 0)
            && (w[0] == "borrow" ==>
                  && input.kind == Borrow && Some(input.randomness) == HexDecode(w[3]) && input.directData == []
                  && input.liquidationPercent == 0 && input.repeat == 1 && !input.step
                  && input.callUntil == 0xFFFF_FFFF)
            && (w[0] == "abi" ==>
                  && input.kind == ABI && input.randomness == []
                  && input.directData == (if HexDecode(w[3]) == Some([0]) then [] else HexDecode(w[3]).value)
                  && input.liquidationPercent == GetOr(ParseUint(w[5], 256), 0)
                  && input.repeat == GetOr(ParseUint(w[7], U64), 0)
                  && input.callUntil == GetOr(ParseUint(w[8], 0x1_0000_0000), 0xFFFF_FFFF)
                  && (input.step <==> w[9] == "true"))
  {}

  /** The lines of transactions that can be printed. */
  ghost function LinesOf(ts: seq<BasicTxn>): (ls: seq<string>)
    requires forall i :: 0 <= i < |ts| ==> Encodable(ts[i]) && Printable(ts[i])
    ensures |ls| == |ts|
  {
    if ts == [] then []
    else
      LineReadsBack(ts[|ts| - 1]);
      LinesOf(ts[..|ts| - 1]) + [Terminated(Columns(ts[|ts| - 1]).value, ' ')]
  }

  lemma {:induction false} LinesOfText(ts: seq<BasicTxn>)
    requires forall i :: 0 <= i < |ts| ==> Encodable(ts[i]) && Printable(ts[i])
    ensures Lines(ts, Show) == Some(Terminated(LinesOf(ts), '\n'))
    ensures forall i :: 0 <= i < |ts| ==> Without(LinesOf(ts)[i], '\n') && Reads(ts[i], ParseLine(LinesOf(ts)[i]))
  {
    if ts != [] {
      var init, last := ts[..|ts| - 1], ts[|ts| - 1];
      LinesOfText(init);
      LineReadsBack(last);
      var line := Terminated(Columns(last).value, ' ');
      TerminatedAppend(LinesOf(init), [line], '\n');
      assert Terminated([line], '\n') == line + "\n";
    }
  }

  ghost predicate AllReplay(ts: seq<BasicTxn>, inputs: seq<ReplayInput>) {
    |inputs| == |ts| && forall i :: 0 <= i < |ts| ==> Replays(ts[i], inputs[i])
  }

  lemma {:induction false} LinesReplay(head: seq<string>, ls: seq<string>, inputs: seq<ReplayInput>,
      parse: string -> Outcome)
    requires |ls| == |inputs| && forall i :: 0 <= i < |ls| ==> parse(ls[i]) == Ready(inputs[i])
    requires Replayed(head, parse) == ([], true)
    ensures Replayed(head + ls, parse) == (inputs, true)
  {
    if ls == [] {
      assert head + ls == head;
    } else {
      var n := |ls| - 1;
      LinesReplay(head, ls[..n], inputs[..n], parse);
      assert (head + ls)[..|head| + n] == head + ls[..n];
      assert inputs == inputs[..n] + [inputs[n]];
    }
  }

  lemma BlankSkipped(lines: seq<string>, parse: string -> Outcome)
    requires Replayed(lines, parse).1 && parse("") == Skipped
    ensures Replayed(lines + [""], parse) == Replayed(lines, parse)
  {
    assert (lines + [""])[..|lines|] == lines;
  }

  lemma ThreeWords(a: string, b: string, c: string)
    requires Without(a, ' ') && Without(b, ' ') && Without(c, ' ')
    ensures Split(a + [' '] + (b + [' '] + c), ' ') == [a, b, c]
  {
    SplitFirst(a, b + [' '] + c, ' ');
    SplitFirst(b, c, ' ');
    NoSeparator(c, ' ');
  }

  /** The error line has three words and is skipped. */
  lemma LostSkipped()
    ensures Replayed([LOST_LINE], ParseLine) == ([], true) && Without(LOST_LINE, '\n')
            && Terminated([LOST_LINE], '\n') == LOST
  {
    ThreeWords("Corpus", "returning", "error");
    assert [LOST_LINE][..0] == [];
  }

  lemma {:induction false} NoSeparator(s: string, sep: char)
    requires Without(s, sep)
    ensures Split(s, sep) == [s]
  {
    if s != "" {
      NoSeparator(s[1..], sep);
      assert [s[0]] + s[1..] == s;
    }
  }

  lemma TerminatedReplays(head: seq<string>, ls: seq<string>, inputs: seq<ReplayInput>, parse: string -> Outcome)
    requires |ls| == |inputs| && forall i :: 0 <= i < |ls| ==> Without(ls[i], '\n') && parse(ls[i]) == Ready(inputs[i])
    requires Replayed(head, parse) == ([], true) && forall i :: 0 <= i < |head| ==> Without(head[i], '\n')
    requires parse("") == Skipped
    ensures Replayed(Split(Terminated(head, '\n') + Terminated(ls, '\n'), '\n'), parse) == (inputs, true)
  {
    var lines := head + ls;
    TerminatedAppend(head, ls, '\n');
    SplitTerminated(lines, '\n');
    LinesReplay(head, ls, inputs, parse);
    BlankSkipped(lines, parse);
  }

  /** What the lines give. */
  ghost function InputsOf(ls: seq<string>, parse: string -> Outcome): (inputs: seq<ReplayInput>)
    requires forall i :: 0 <= i < |ls| ==> parse(ls[i]).Ready?
    ensures |inputs| == |ls| && forall i :: 0 <= i < |ls| ==> parse(ls[i]) == Ready(inputs[i])
  {
    seq(|ls|, i requires 0 <= i < |ls| => parse(ls[i]).input)
  }

  /** What the reader makes of a text: exactly these transactions, and no panic. */
  ghost predicate ReadsAs(text: Option<string>, ts: seq<BasicTxn>, parse: string -> Outcome) {
    text.Some? && var r := Replayed(Split(text.value, '\n'), parse); r.1 && AllReplay(ts, r.0)
  }

  lemma AllRead(ts: seq<BasicTxn>, ls: seq<string>, inputs: seq<ReplayInput>, parse: string -> Outcome)
    requires |ts| == |ls| == |inputs|
    requires forall i :: 0 <= i < |ls| ==> Reads(ts[i], parse(ls[i])) && parse(ls[i]) == Ready(inputs[i])
    ensures AllReplay(ts, inputs)
  {
    forall i | 0 <= i < |ts| ensures Replays(ts[i], inputs[i]) {
      assert Reads(ts[i], parse(ls[i]));
    }
  }

  lemma LinesReadAs(head: seq<string>, ls: seq<string>, ts: seq<BasicTxn>, parse: string -> Outcome)
    requires |ls| == |ts| && forall i :: 0 <= i < |ts| ==> Without(ls[i], '\n') && Reads(ts[i], parse(ls[i]))
    requires Replayed(head, parse) == ([], true) && forall i :: 0 <= i < |head| ==> Without(head[i], '\n')
    requires parse("") == Skipped
    ensures ReadsAs(Some(Terminated(head, '\n') + Terminated(ls, '\n')), ts, parse)
  {
    assert forall i :: 0 <= i < |ls| ==> Reads(ts[i], parse(ls[i]));
    TerminatedReplays(head, ls, InputsOf(ls, parse), parse);
    AllRead(ts, ls, InputsOf(ls, parse), parse);
  }

  lemma BlankLine()
    ensures ParseLine("") == Skipped
  {}

  /** What `to_file_str` may put before the first transaction. */
  function Head(lost: bool): string { if lost then LOST else "" }

  function HeadLines(lost: bool): seq<string> { if lost then [LOST_LINE] else [] }

  lemma HeadSkipped(lost: bool)
    ensures SkippedHead(HeadLines(lost), Head(lost))
  {
    LostSkipped();
  }

  ghost predicate SkippedHead(head: seq<string>, text: string) {
    && Replayed(head, ParseLine) == ([], true) && (forall i :: 0 <= i < |head| ==> Without(head[i], '\n'))
    && text == Terminated(head, '\n')
  }

  lemma HeadedFileReadsBack(head: seq<string>, text: string, ts: seq<BasicTxn>)
    requires forall i :: 0 <= i < |ts| ==> Encodable(ts[i]) && Printable(ts[i])
    requires SkippedHead(head, text)
    ensures ReadsAs(Prefixed(text, Lines(ts, Show)), ts, ParseLine)
  {
    LinesOfText(ts);
    BlankLine();
    LinesReadAs(head, LinesOf(ts), ts, ParseLine);
  }

  /** The whole file reads back as the sequence of transactions, with or without the error line. */
  lemma FileReadsBack(lost: bool, ts: seq<BasicTxn>)
    requires forall i :: 0 <= i < |ts| ==> Encodable(ts[i]) && Printable(ts[i])
    ensures ReadsAs(Prefixed(Head(lost), Lines(ts, Show)), ts, ParseLine)
  {
    HeadSkipped(lost);
    HeadedFileReadsBack(HeadLines(lost), Head(lost), ts);
  }

  lemma ShowIffPrintable(t: BasicTxn)
    ensures Show(t).Some? <==> Printable(t)
  {}

  /** The writer panics exactly when some transaction cannot be printed. */
  lemma {:induction false} WriterPanicsIff(ts: seq<BasicTxn>)
    ensures Lines(ts, Show).Some? <==> forall i :: 0 <= i < |ts| ==> Printable(ts[i])
  {
    if ts != [] {
      WriterPanicsIff(ts[..|ts| - 1]);
      ShowIffPrintable(ts[|ts| - 1]);
      assert forall i :: 0 <= i < |ts| - 1 ==> ts[..|ts| - 1][i] == ts[i];
    }
  }

  // ---- whole campaigns ----

  /** A transaction as the machine ran it: with the block environment, which the record leaves out. */
  datatype Executed<E> = Executed(txn: BasicTxn, env: E)

  function Printer<E>(): Executed<E> -> Option<string> {
    (x: Executed<E>) => Show(x.txn)
  }

  function Txns<E>(xs: seq<Executed<E>>): (ts: seq<BasicTxn>)
    ensures |ts| == |xs| && forall i :: 0 <= i < |xs| ==> ts[i] == xs[i].txn
  {
    seq(|xs|, i requires 0 <= i < |xs| => xs[i].txn)
  }

  /** Lines show the record only. */
  lemma {:induction false} LinesOfRecords<E>(xs: seq<Executed<E>>)
    ensures Lines(xs, Printer()) == Lines(Txns(xs), Show)
  {
    if xs != [] {
      LinesOfRecords(xs[..|xs| - 1]);
      assert Txns(xs)[..|xs| - 1] == Txns(xs[..|xs| - 1]);
    }
  }

  /** Runs that differ only in their environments are printed alike. */
  lemma EnvironmentNotPrinted<E>(xs: seq<Executed<E>>, ys: seq<Executed<E>>)
    requires Txns(xs) == Txns(ys)
    ensures Lines(xs, Printer()) == Lines(ys, Printer())
  {
    LinesOfRecords(xs);
    LinesOfRecords(ys);
  }

  ghost predicate AllPrintable<E>(xs: seq<Executed<E>>) {
    forall i :: 0 <= i < |xs| ==> Encodable(xs[i].txn) && Printable(xs[i].txn)
  }

  /**
   * Writing the trace of a campaign and reading the file gives exactly the transactions of the
   * run after its last pruned ancestor: the whole run when nothing on it was pruned.
   */
  lemma TraceReplays<V, E>(
      h: seq<Snapshot<V, Executed<E>>>, step: (V, Executed<E>, V) -> bool,
      entries: map<nat, Snapshot<V, Executed<E>>>, t: Trace<Executed<E>>)
    requires Genuine(h, step) && Holds(h, entries) && PointsDown(entries) && Rooted(h, t)
    requires AllPrintable(Chain(h, step, t))
    ensures var n := LostCount(Ancestors(h, step, t), entries.Keys);
            ReadsAs(Rendered(entries, t, "", Printer()), Txns(Chain(h, step, t)[n..]), ParseLine)
  {
    PrintedIsSuffix(h, step, entries, t);
    var n := LostCount(Ancestors(h, step, t), entries.Keys);
    RecordsReadBack(n > 0, Chain(h, step, t), n);
  }

  lemma RecordsReadBack<E>(lost: bool, xs: seq<Executed<E>>, n: nat)
    requires AllPrintable(xs) && n <= |xs|
    ensures ReadsAs(Prefixed(Head(lost), Lines(xs[n..], Printer())), Txns(xs[n..]), ParseLine)
  {
    LinesOfRecords(xs[n..]);
    FileReadsBack(lost, Txns(xs[n..]));
  }

  lemma WholeTraceReplays<V, E>(
      h: seq<Snapshot<V, Executed<E>>>, step: (V, Executed<E>, V) -> bool,
      entries: map<nat, Snapshot<V, Executed<E>>>, t: Trace<Executed<E>>)
    requires Genuine(h, step) && Holds(h, entries) && PointsDown(entries) && Rooted(h, t)
    requires AllPrintable(Chain(h, step, t)) && forall j :: j in Ancestors(h, step, t) ==> j in entries
    ensures ReadsAs(Rendered(entries, t, "", Printer()), Txns(Chain(h, step, t)), ParseLine)
  {
    TraceReplays(h, step, entries, t);
    NoneLostIff(Ancestors(h, step, t), entries.Keys);
    assert Chain(h, step, t)[0..] == Chain(h, step, t);
  }

  /** The reader runs each input, in the environment it always builds, on the state the one before left. */
  function ReplayAll<V, E>(run: (V, ReplayInput, E) -> V, env: E, v: V, inputs: seq<ReplayInput>): V {
    if inputs == [] then v
    else run(ReplayAll(run, env, v, inputs[..|inputs| - 1]), inputs[|inputs| - 1], env)
  }

  /** What the machine does depends on its state, on what the file keeps of a transaction, and on the environment. */
  ghost predicate Determined<V(!new), E(!new)>(step: (V, Executed<E>, V) -> bool, run: (V, ReplayInput, E) -> V) {
    forall v, x, v', input :: step(v, x, v') && Replays(x.txn, input) ==> run(v, input, x.env) == v'
  }

  lemma {:induction false} ReplayFollowsRun<V(!new), E(!new)>(
      step: (V, Executed<E>, V) -> bool, run: (V, ReplayInput, E) -> V, env: E,
      vs: seq<V>, xs: seq<Executed<E>>, inputs: seq<ReplayInput>, k: nat)
    requires Determined(step, run) && IsRun(step, vs, xs) && AllReplay(Txns(xs), inputs) && k <= |xs|
    requires forall i :: 0 <= i < |xs| ==> xs[i].env == env
    ensures ReplayAll(run, env, vs[0], inputs[..k]) == vs[k]
  {
    if k > 0 {
      ReplayFollowsRun(step, run, env, vs, xs, inputs, k - 1);
      assert inputs[..k][..k - 1] == inputs[..k - 1];
      assert step(vs[k - 1], xs[k - 1], vs[k]) && Replays(Txns(xs)[k - 1], inputs[k - 1]);
    }
  }

  lemma FollowToEnd<V(!new), E(!new)>(
      step: (V, Executed<E>, V) -> bool, run: (V, ReplayInput, E) -> V, env: E,
      vs: seq<V>, xs: seq<Executed<E>>, inputs: seq<ReplayInput>)
    requires Determined(step, run) && IsRun(step, vs, xs) && AllReplay(Txns(xs), inputs)
    requires forall i :: 0 <= i < |xs| ==> xs[i].env == env
    ensures ReplayAll(run, env, vs[0], inputs) == vs[|xs|]
  {
    ReplayFollowsRun(step, run, env, vs, xs, inputs, |xs|);
    assert inputs[..|xs|] == inputs;
  }

  /**
   * Replaying the file written for a snapshot, none of whose ancestors was pruned and all of whose
   * transactions ran in the reader's environment, reproduces its state.
   */
  lemma ReplayReproducesSnapshot<V(!new), E(!new)>(
      h: seq<Snapshot<V, Executed<E>>>, step: (V, Executed<E>, V) -> bool,
      entries: map<nat, Snapshot<V, Executed<E>>>, k: nat, run: (V, ReplayInput, E) -> V, env: E)
    requires Genuine(h, step) && Holds(h, entries) && PointsDown(entries) && k < |h| && Rooted(h, h[k].trace)
    requires AllPrintable(Chain(h, step, h[k].trace)) && Determined(step, run)
    requires forall x :: x in Chain(h, step, h[k].trace) ==> x.env == env
    requires forall j :: j in Ancestors(h, step, h[k].trace) ==> j in entries
    ensures var text := Rendered(entries, h[k].trace, "", Printer());
            text.Some? && ReplayAll(run, env, h[0].vm, Replayed(Split(text.value, '\n'), ParseLine).0) == h[k].vm
  {
    WholeTraceReplays(h, step, entries, h[k].trace);
    StoredIsRun(h, step, k);
    var text := Rendered(entries, h[k].trace, "", Printer()).value;
    var vs, xs := StatesOf(h, Ancestors(h, step, h[k].trace)) + [h[k].vm], Chain(h, step, h[k].trace);
    EndState(step, run, env, vs, xs, Some(text), h[0].vm);
  }

  lemma EndState<V(!new), E(!new)>(
      step: (V, Executed<E>, V) -> bool, run: (V, ReplayInput, E) -> V, env: E,
      vs: seq<V>, xs: seq<Executed<E>>, text: Option<string>, v: V)
    requires Determined(step, run) && IsRun(step, vs, xs) && ReadsAs(text, Txns(xs), ParseLine) && v == vs[0]
    requires forall x :: x in xs ==> x.env == env
    ensures ReplayAll(run, env, v, Replayed(Split(text.value, '\n'), ParseLine).0) == vs[|vs| - 1]
  {
    FollowToEnd(step, run, env, vs, xs, Replayed(Split(text.value, '\n'), ParseLine).0);
  }

  // ---- what the missing environment costs ----

  /** A machine whose state records the environments it saw. */
  function LogRun<E>(): (seq<E>, ReplayInput, E) -> seq<E> {
    (v: seq<E>, input: ReplayInput, env: E) => v + [env]
  }

  function LogStep<E(==)>(): (seq<E>, Executed<E>, seq<E>) -> bool {
    (v: seq<E>, x: Executed<E>, v': seq<E>) => v' == v + [x.env]
  }

  lemma {:induction false} LogReplay<E>(env: E, inputs: seq<ReplayInput>)
    ensures ReplayAll(LogRun(), env, [], inputs) == seq(|inputs|, _ => env)
  {
    if inputs != [] {
      LogReplay(env, inputs[..|inputs| - 1]);
    }
  }

  lemma {:induction false} LogOfRun<E>(vs: seq<seq<E>>, xs: seq<Executed<E>>, k: nat)
    requires IsRun(LogStep(), vs, xs) && vs[0] == [] && k <= |xs|
    ensures |vs[k]| == k && forall i :: 0 <= i < k ==> vs[k][i] == xs[i].env
  {
    if k > 0 {
      LogOfRun(vs, xs, k - 1);
      assert LogStep()(vs[k - 1], xs[k - 1], vs[k]);
    }
  }

  /** The recording machine is determined, and its replay is right if and only if every environment was the reader's. */
  lemma LogReplaysIff<E(!new)>(vs: seq<seq<E>>, xs: seq<Executed<E>>, inputs: seq<ReplayInput>, env: E)
    requires IsRun(LogStep(), vs, xs) && vs[0] == [] && AllReplay(Txns(xs), inputs)
    ensures Determined(LogStep<E>(), LogRun<E>())
    ensures ReplayAll(LogRun(), env, [], inputs) == vs[|xs|] <==> forall i :: 0 <= i < |xs| ==> xs[i].env == env
  {
    LogReplay(env, inputs);
    LogOfRun(vs, xs, |xs|);
    var replay, log := ReplayAll(LogRun(), env, [], inputs), vs[|xs|];
    if replay == log {
      forall i | 0 <= i < |xs| ensures xs[i].env == env {
        assert replay[i] == log[i];
      }
    }
  }

  lemma NoMarkInDigits(d: string)
    requires AllDigits(d)
    ensures Find(d, LIQ_MARK).None?
  {
    forall k: nat ensures !OccursAt(d, k, LIQ_MARK) {
      if k + |LIQ_MARK| <= |d| {
        assert d[k..k + |LIQ_MARK|][0] == d[k];
        assert IsDigit(d[k]) && LIQ_MARK[0] == 'l';
      }
    }
  }

  /** The percentage survives the text that `pretty_txn` builds around it. */
  lemma PrettyPercent(t: BasicTxn, front: string, percent: nat)
    requires t.data == Some(front + LIQ_MARK + Decimal(percent)) && percent < U64
    requires forall i :: 0 <= i < |front| ==> !OccursAt(front + LIQ_MARK + Decimal(percent), i, LIQ_MARK)
    ensures LiqPercent(t) == percent
  {
    var s, d := front + LIQ_MARK + Decimal(percent), Decimal(percent);
    assert s[|front|..|front| + |LIQ_MARK|] == LIQ_MARK;
    assert OccursAt(s, |front|, LIQ_MARK);
    assert Find(s, LIQ_MARK) == Some(|front|);
    assert s[|front| + |LIQ_MARK|..] == d;
    NoMarkInDigits(d);
    ParseDecimal(percent, U64);
  }
}
