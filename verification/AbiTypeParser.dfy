/** From a contract's JSON interface to type names, and from type names to default values. */
module AbiTypeParser {
  import opened Words
  import opened Text
  import opened TypeNames
  import opened AbiCodec
  import opened AbiLayout
  import opened AbiGaps
  import opened AbiRoundTrip

  // ---- Solidity's types and their names ----

  datatype Sol =
    | Uint(bits: nat)
    | Int(bits: nat)
    | Address
    | Bool
    | FixedBytes(length: nat)
    | DynBytes
    | Str
    | List(element: Sol)
    | Fixed(element: Sol, length: nat)
    | Tuple(members: seq<Sol>)

  /** Widths are whole bytes of at most a word; an array length is a `usize`. */
  ghost predicate WellFormed(t: Sol) {
    match t
    case Uint(b) => b % 8 == 0 && 8 <= b <= 256
    case Int(b) => b % 8 == 0 && 8 <= b <= 256
    case FixedBytes(n) => n <= WORD
    case List(e) => WellFormed(e)
    case Fixed(e, n) => WellFormed(e) && n < USIZE
    case Tuple(ts) => forall i :: 0 <= i < |ts| ==> WellFormed(ts[i])
    case _ => true
  }

  function Name(t: Sol): string {
    match t
    case Uint(b) => "uint" + Decimal(b)
    case Int(b) => "int" + Decimal(b)
    case Address => "address"
    case Bool => "bool"
    case FixedBytes(n) => "bytes" + Decimal(n)
    case DynBytes => "bytes"
    case Str => "string"
    case List(e) => Name(e) + "[]"
    case Fixed(e, n) => Name(e) + "[" + Decimal(n) + "]"
    case Tuple(ts) => "(" + JoinAll(NamesOf(ts)) + ")"
  }

  function NamesOf(ts: seq<Sol>): (ns: seq<string>)
    ensures |ns| == |ts| && forall i :: 0 <= i < |ts| ==> ns[i] == Name(ts[i])
  {
    seq(|ts|, i requires 0 <= i < |ts| => Name(ts[i]))
  }

  /** `join(",")`; nothing joins to nothing. */
  function JoinAll(ps: seq<string>): string { if ps == [] then "" else Join(ps) }

  // ---- the interface description ----

  /** One entry of `inputs` or `components`: its `type`, and its `components` if it has them. */
  datatype Param =
    | Simple(ty: string)
    | Composite(ty: string, components: seq<Param>)

  /** How the compiler describes a type: the innermost tuple's members as components. */
  function Described(t: Sol): Param
    decreases t, 1
  {
    if HasTuple(t) then Composite(Spelled(t), Components(t)) else Simple(Spelled(t))
  }

  /** The type is a tuple, or an array of such. */
  predicate HasTuple(t: Sol) {
    match t
    case Tuple(_) => true
    case List(e) => HasTuple(e)
    case Fixed(e, _) => HasTuple(e)
    case _ => false
  }

  function Spelled(t: Sol): string {
    match t
    case Tuple(_) => "tuple"
    case List(e) => Spelled(e) + "[]"
    case Fixed(e, n) => Spelled(e) + "[" + Decimal(n) + "]"
    case _ => Name(t)
  }

  function Components(t: Sol): seq<Param>
    requires HasTuple(t)
    decreases t, 0
  {
    match t
    case Tuple(ts) => seq(|ts|, i requires 0 <= i < |ts| => Described(ts[i]))
    case List(e) => Components(e)
    case Fixed(e, _) => Components(e)
  }

  predicate EndsWith(s: string, end: string) { |end| <= |s| && s[|s| - |end|..] == end }

  predicate StartsWith(s: string, start: string) { |start| <= |s| && s[..|start|] == start }

  lemma {:induction false} Ends(s: string, start: string, end: string)
    ensures StartsWith(s, start) && start != "" ==> s != "" && s[0] == start[0]
    ensures EndsWith(s, end) && end != "" ==> s != "" && s[|s| - 1] == end[|end| - 1]
  {
    if StartsWith(s, start) && start != "" {
      assert s[..|start|][0] == s[0];
    }
    if EndsWith(s, end) && end != "" {
      assert s[|s| - |end|..][|end| - 1] == s[|s| - 1];
    }
  }

  /** `process_input`; `None` is its panic. */
  function ProcessInput(ty: string, input: Param): Option<string>
    decreases input, |ty|
  {
    if input.Simple? then Some(ty)
    else if ty == "tuple" then
      var parts := input.components;
      Parenthesized(seq(|parts|, i requires 0 <= i < |parts| => ProcessInput(parts[i].ty, parts[i])))
    else if EndsWith(ty, "[]") then
      match ProcessInput(ty[..|ty| - 2], input)
      case None => None
      case Some(name) => Some(name + "[]")
    else None
  }

  function Parenthesized(names: seq<Option<string>>): Option<string> {
    if forall i :: 0 <= i < |names| ==> names[i].Some? then
      Some("(" + JoinAll(seq(|names|, i requires 0 <= i < |names| => names[i].value)) + ")")
    else None
  }

  /** No array of fixed length has tuples inside. */
  predicate NoFixedTuple(t: Sol) {
    match t
    case List(e) => NoFixedTuple(e)
    case Fixed(e, _) => !HasTuple(e)
    case Tuple(ts) => forall i :: 0 <= i < |ts| ==> NoFixedTuple(ts[i])
    case _ => true
  }

  lemma {:induction false} SpelledIsName(t: Sol)
    requires !HasTuple(t)
    ensures Spelled(t) == Name(t) && NoFixedTuple(t)
  {
    if t.List? {
      SpelledIsName(t.element);
    } else if t.Fixed? {
      SpelledIsName(t.element);
    }
  }

  lemma {:induction false} SpelledArray(t: Sol)
    requires t.List? || t.Fixed?
    ensures Spelled(t) != "tuple"
    ensures t.List? ==> EndsWith(Spelled(t), "[]") && Spelled(t)[..|Spelled(t)| - 2] == Spelled(t.element)
    ensures t.Fixed? ==> !EndsWith(Spelled(t), "[]")
  {
    var s := Spelled(t);
    assert s[|s| - 1] == ']';
    if t.List? {
      assert s[|s| - 2..] == "[]";
    } else {
      assert s[|s| - 2] == Decimal(t.length)[|Decimal(t.length)| - 1];
      assert IsDigit(s[|s| - 2]);
      assert s[|s| - 2..][0] == s[|s| - 2];
    }
  }

  /**
   * `process_input` spells out every tuple of a type, and panics exactly when an array of fixed
   * length has a tuple inside.
   */
  lemma {:induction false} ProcessInputPrints(t: Sol, input: Param)
    requires if HasTuple(t) then input.Composite? && input.components == Components(t) else input.Simple?
    ensures ProcessInput(Spelled(t), input) == if NoFixedTuple(t) then Some(Name(t)) else None
    decreases t
  {
    if !HasTuple(t) {
      SpelledIsName(t);
    } else if t.Tuple? {
      var parts := input.components;
      forall i | 0 <= i < |parts|
        ensures ProcessInput(parts[i].ty, parts[i]) ==
                if NoFixedTuple(t.members[i]) then Some(Name(t.members[i])) else None
      {
        ProcessInputPrints(t.members[i], parts[i]);
      }
      PrintedTuple(t.members, seq(|parts|, i requires 0 <= i < |parts| => ProcessInput(parts[i].ty, parts[i])));
    } else if t.List? {
      SpelledArray(t);
      ProcessInputPrints(t.element, input);
    } else {
      SpelledArray(t);
    }
  }

  lemma {:induction false} PrintedTuple(ts: seq<Sol>, names: seq<Option<string>>)
    requires |names| == |ts|
    requires forall i :: 0 <= i < |ts| ==> names[i] == if NoFixedTuple(ts[i]) then Some(Name(ts[i])) else None
    ensures Parenthesized(names) ==
            if NoFixedTuple(Tuple(ts)) then Some("(" + JoinAll(NamesOf(ts)) + ")") else None
  {
    if forall i :: 0 <= i < |ts| ==> NoFixedTuple(ts[i]) {
      assert seq(|names|, i requires 0 <= i < |names| => names[i].value) == NamesOf(ts);
    } else {
      var i :| 0 <= i < |ts| && !NoFixedTuple(ts[i]);
      assert names[i].None?;
    }
  }

  /** What `process_input` makes of each entry. */
  function Processed(inputs: seq<Param>): (names: seq<Option<string>>)
    ensures |names| == |inputs| && forall i :: 0 <= i < |names| ==> names[i] == ProcessInput(inputs[i].ty, inputs[i])
  {
    seq(|inputs|, i requires 0 <= i < |inputs| => ProcessInput(inputs[i].ty, inputs[i]))
  }

  /** The name `parse_abi_str` gives to a function's arguments: the loop over its `inputs`. */
  method ArgumentsName(inputs: seq<Param>) returns (name: Option<string>)
    ensures name == Parenthesized(Processed(inputs))
  {
    var abiName: seq<string> := [];
    ghost var names := Processed(inputs);
    for i := 0 to |inputs|
      invariant |abiName| == i && forall j :: 0 <= j < i ==> names[j] == Some(abiName[j])
    {
      var one := ProcessInput(inputs[i].ty, inputs[i]);
      assert one == names[i];
      if one.None? {
        return None;
      }
      abiName := abiName + [one.value];
    }
    assert abiName == seq(|names|, i requires 0 <= i < |names| => names[i].value);
    name := Some("(" + JoinAll(abiName) + ")");
  }

  // ---- from names to values ----

  /** `Beyond`: the program builds something this model has no value for (`AUnknown`, a word of more than 32 bytes). */
  datatype Parsed<T> = Ok(value: T) | Panicked | Beyond

  function ZeroWord(n: nat, isBytes: bool): Parsed<Abi> {
    if n <= WORD then Ok(A256(Zeros(n), false, false, isBytes)) else Beyond
  }

  /** A whole number of bytes, at least one, written in bits. */
  function IntWord(bits: string): Parsed<Abi> {
    match ParseUint(bits, USIZE)
    case None => Panicked
    case Some(n) => if n % 8 == 0 && n >= 8 then ZeroWord(n / 8, false) else Panicked
  }

  /** `get_abi_type_basic`. */
  function GetAbiTypeBasic(name: string, withAddress: Option<WordData>): Parsed<Abi> {
    if name == "uint" || name == "int" then ZeroWord(WORD, false)
    else if name == "address" then
      Ok(A256(if withAddress.Some? then withAddress.value else Zeros(ADDRESS_BYTES), true, false, false))
    else if name == "bool" then ZeroWord(1, false)
    else if name == "bytes" || name == "string" then Ok(ADynamic([]))
    else if StartsWith(name, "uint") then IntWord(name[4..])
    else if StartsWith(name, "int") then IntWord(name[3..])
    else if name == "unknown" then Beyond
    else if StartsWith(name, "bytes") then
      match ParseUint(name[5..], USIZE)
      case None => Panicked
      case Some(n) => ZeroWord(n, true)
    else if name == "" then Ok(AEmpty)
    else Panicked
  }

  /** The place of the last `c`, for `rsplit_once`. */
  function LastIndex(s: string, c: char): (k: Option<nat>)
    ensures k.Some? ==> k.value < |s| && s[k.value] == c
  {
    if s == "" then None
    else if s[|s| - 1] == c then Some(|s| - 1)
    else LastIndex(s[..|s| - 1], c)
  }

  function Repeat(v: Abi, n: nat): seq<Abi> { seq(n, i => v) }

  /** `get_abi_type`. */
  function GetAbiType(name: string, withAddress: Option<WordData>): Parsed<Abi>
    decreases |name|, 1, 0
  {
    if name == "()" then Ok(AEmpty)
    else if StartsWith(name, "(") && EndsWith(name, ")") && |name| >= 2 then
      match GetAll(SplitFrom(name[1..|name| - 1], 0), withAddress, |name|)
      case Ok(items) => Ok(AArray(items, false))
      case Panicked => Panicked
      case Beyond => Beyond
    else if EndsWith(name, "[]") then
      match GetAbiType(name[..|name| - 2], withAddress)
      case Ok(v) => Ok(AArray([v], true))
      case Panicked => Panicked
      case Beyond => Beyond
    else if EndsWith(name, "]") && LastIndex(name, '[').Some? then
      var k := LastIndex(name, '[').value;
      match ParseUint(Split(name[k + 1..], ']')[0], USIZE)
      case None => Panicked
      case Some(n) =>
        match GetAbiType(name[..k], withAddress)
        case Ok(v) => Ok(AArray(Repeat(v, n), false))
        case Panicked => Panicked
        case Beyond => Beyond
    else GetAbiTypeBasic(name, withAddress)
  }

  function GetAll(names: seq<string>, withAddress: Option<WordData>, bound: nat): Parsed<seq<Abi>>
    requires forall i :: 0 <= i < |names| ==> |names[i]| < bound
    decreases bound, 0, |names|
  {
    if names == [] then Ok([])
    else
      match GetAbiType(names[0], withAddress)
      case Panicked => Panicked
      case Beyond => Beyond
      case Ok(v) =>
        match GetAll(names[1..], withAddress, bound)
        case Panicked => Panicked
        case Beyond => Beyond
        case Ok(vs) => Ok([v] + vs)
  }

  // ---- the default value of a type ----

  /** Zeros everywhere, one element in every dynamic array. */
  function Default(t: Sol, withAddress: Option<WordData>): Abi {
    match t
    case Uint(b) => A256(Zeros(if b <= 256 then b / 8 else 0), false, false, false)
    case Int(b) => A256(Zeros(if b <= 256 then b / 8 else 0), false, false, false)
    case Address => A256(if withAddress.Some? then withAddress.value else Zeros(ADDRESS_BYTES), true, false, false)
    case Bool => A256(Zeros(1), false, false, false)
    case FixedBytes(n) => A256(Zeros(if n <= WORD then n else 0), false, false, true)
    case DynBytes => ADynamic([])
    case Str => ADynamic([])
    case List(e) => AArray([Default(e, withAddress)], true)
    case Fixed(e, n) => AArray(Repeat(Default(e, withAddress), n), false)
    case Tuple(ts) => if ts == [] then AEmpty else AArray(Defaults(ts, withAddress), false)
  }

  function Defaults(ts: seq<Sol>, withAddress: Option<WordData>): (vs: seq<Abi>)
    ensures |vs| == |ts| && forall i :: 0 <= i < |ts| ==> vs[i] == Default(ts[i], withAddress)
  {
    seq(|ts|, i requires 0 <= i < |ts| => Default(ts[i], withAddress))
  }

  // ---- the shape of names ----

  ghost predicate IsPiece(s: string) { Nested(s) && NoTopComma(s, 0) }

  /** No comma, no parenthesis. */
  ghost predicate Bare(s: string) { forall i :: 0 <= i < |s| ==> s[i] != '(' && s[i] != ')' && s[i] != ',' }

  lemma {:induction false} BarePiece(s: string)
    requires Bare(s)
    ensures IsPiece(s)
  {
    NoParensNested(s);
  }

  lemma {:induction false} PieceAppend(a: string, b: string)
    requires IsPiece(a) && Bare(b)
    ensures IsPiece(a + b)
  {
    BarePiece(b);
    NestedAppend(a, b);
    forall k | 0 <= k < |a + b| && (a + b)[k] == ',' ensures Net((a + b)[..k]) != 0 {
      assert k < |a|;
      assert (a + b)[..k] == a[..k];
    }
  }

  lemma {:induction false} DecimalBare(n: nat)
    ensures Bare(Decimal(n))
  {
    forall i | 0 <= i < |Decimal(n)| ensures Decimal(n)[i] != '(' && Decimal(n)[i] != ')' && Decimal(n)[i] != ',' {
      assert IsDigit(Decimal(n)[i]);
    }
  }

  lemma {:induction false} NameIsPiece(t: Sol)
    ensures IsPiece(Name(t))
  {
    match t
    case List(e) =>
      NameIsPiece(e);
      PieceAppend(Name(e), "[]");
    case Fixed(e, n) =>
      NameIsPiece(e);
      FixedPiece(Name(e), n);
    case Tuple(ts) =>
      forall i | 0 <= i < |ts| ensures IsPiece(NamesOf(ts)[i]) {
        NameIsPiece(ts[i]);
      }
      TuplePiece(NamesOf(ts));
    case _ => ElementaryBare(t);
  }

  predicate Elementary(t: Sol) { !t.List? && !t.Fixed? && !t.Tuple? }

  lemma {:induction false} ElementaryBare(t: Sol)
    requires Elementary(t)
    ensures IsPiece(Name(t))
  {
    if t.Uint? {
      DecimalBare(t.bits);
    } else if t.Int? {
      DecimalBare(t.bits);
    } else if t.FixedBytes? {
      DecimalBare(t.length);
    }
    BarePiece(Name(t));
  }

  lemma {:induction false} FixedPiece(name: string, n: nat)
    requires IsPiece(name)
    ensures IsPiece(name + "[" + Decimal(n) + "]")
  {
    DecimalBare(n);
    PieceAppend(name, "[");
    PieceAppend(name + "[", Decimal(n));
    PieceAppend(name + "[" + Decimal(n), "]");
  }

  lemma {:induction false} TuplePiece(names: seq<string>)
    requires forall i :: 0 <= i < |names| ==> IsPiece(names[i])
    ensures IsPiece("(" + JoinAll(names) + ")")
  {
    if names != [] {
      JoinNested(names);
    } else {
      NoParensNested("");
    }
    Enclosed(JoinAll(names));
  }

  // ---- parsing inverts printing ----

  /** A name that does not open a parenthesis and does not close a bracket. */
  lemma {:induction false} BasicOnly(name: string, withAddress: Option<WordData>)
    requires |name| > 0 && name[0] != '(' && name[|name| - 1] != ']'
    ensures GetAbiType(name, withAddress) == GetAbiTypeBasic(name, withAddress)
  {
    Ends(name, "(", "[]");
    Ends(name, "(", "]");
  }

  lemma {:induction false} LastDigit(front: string, n: nat)
    ensures var s := front + Decimal(n); IsDigit(s[|s| - 1]) && s[|front|..] == Decimal(n) && s[..|front|] == front
  {
    assert IsDigit(Decimal(n)[|Decimal(n)| - 1]);
  }

  /** Names with a number: a width in bits, of whole bytes, or a number of bytes; too wide ones are `Beyond`. */
  lemma {:induction false} UintName(bits: nat, withAddress: Option<WordData>)
    requires bits < USIZE
    ensures GetAbiType("uint" + Decimal(bits), withAddress) ==
            if bits % 8 != 0 || bits < 8 then Panicked
            else if bits <= 256 then Ok(A256(Zeros(bits / 8), false, false, false)) else Beyond
  {
    var name := "uint" + Decimal(bits);
    LastDigit("uint", bits);
    assert name[0] == 'u' && |name| > 4;
    BasicOnly(name, withAddress);
    ParseDecimal(bits, USIZE);
  }

  lemma {:induction false} IntName(bits: nat, withAddress: Option<WordData>)
    requires bits < USIZE
    ensures GetAbiType("int" + Decimal(bits), withAddress) ==
            if bits % 8 != 0 || bits < 8 then Panicked
            else if bits <= 256 then Ok(A256(Zeros(bits / 8), false, false, false)) else Beyond
  {
    var name := "int" + Decimal(bits);
    LastDigit("int", bits);
    assert name[0] == 'i' && |name| > 3;
    Ends(name, "uint", "");
    BasicOnly(name, withAddress);
    ParseDecimal(bits, USIZE);
  }

  lemma {:induction false} BytesName(n: nat, withAddress: Option<WordData>)
    requires n < USIZE
    ensures GetAbiType("bytes" + Decimal(n), withAddress) ==
            if n <= 32 then Ok(A256(Zeros(n), false, false, true)) else Beyond
  {
    var name := "bytes" + Decimal(n);
    LastDigit("bytes", n);
    assert name[0] == 'b' && name[1] == 'y' && |name| > 5;
    Ends(name, "uint", "");
    Ends(name, "int", "");
    BasicOnly(name, withAddress);
    ParseDecimal(n, USIZE);
  }

  /** The names without a number. */
  lemma WordNames(withAddress: Option<WordData>)
    ensures GetAbiType("uint", withAddress) == Ok(A256(Zeros(32), false, false, false))
    ensures GetAbiType("int", withAddress) == Ok(A256(Zeros(32), false, false, false))
    ensures GetAbiType("bool", withAddress) == Ok(A256(Zeros(1), false, false, false))
  {
    BasicOnly("uint", withAddress);
    BasicOnly("int", withAddress);
    BasicOnly("bool", withAddress);
  }

  lemma OtherNames(withAddress: Option<WordData>)
    ensures GetAbiType("address", withAddress) ==
            Ok(A256(if withAddress.Some? then withAddress.value else Zeros(20), true, false, false))
    ensures GetAbiType("bytes", withAddress) == Ok(ADynamic([]))
    ensures GetAbiType("string", withAddress) == Ok(ADynamic([]))
    ensures GetAbiType("()", withAddress) == Ok(AEmpty)
  {
    BasicOnly("address", withAddress);
    BasicOnly("bytes", withAddress);
    BasicOnly("string", withAddress);
  }

  lemma {:induction false} ElementaryName(t: Sol, withAddress: Option<WordData>)
    requires Elementary(t) && WellFormed(t)
    ensures GetAbiType(Name(t), withAddress) == Ok(Default(t, withAddress))
  {
    match t
    case Uint(b) => UintName(b, withAddress);
    case Int(b) => IntName(b, withAddress);
    case FixedBytes(n) => BytesName(n, withAddress);
    case Address => BasicOnly("address", withAddress);
    case Bool => BasicOnly("bool", withAddress);
    case DynBytes => BasicOnly("bytes", withAddress);
    case Str => BasicOnly("string", withAddress);
  }

  lemma {:induction false} ListName(name: string, withAddress: Option<WordData>)
    requires GetAbiType(name, withAddress).Ok?
    ensures GetAbiType(name + "[]", withAddress) == Ok(AArray([GetAbiType(name, withAddress).value], true))
  {
    var s := name + "[]";
    assert s[|s| - 1] == ']' && s[|s| - 2..] == "[]" && s[..|s| - 2] == name;
    Ends(s, "", ")");
  }

  lemma {:induction false} LastBracket(name: string, digits: string)
    requires forall i :: 0 <= i < |digits| ==> digits[i] != '['
    ensures LastIndex(name + "[" + digits, '[') == Some(|name|)
  {
    if digits == "" {
      assert name + "[" + digits == name + "[";
    } else {
      var init := digits[..|digits| - 1];
      LastBracket(name, init);
      var s := name + "[" + digits;
      assert s[..|s| - 1] == name + "[" + init;
    }
  }

  lemma {:induction false} FixedName(name: string, n: nat, withAddress: Option<WordData>)
    requires GetAbiType(name, withAddress).Ok? && n < USIZE
    ensures GetAbiType(name + "[" + Decimal(n) + "]", withAddress) ==
            Ok(AArray(Repeat(GetAbiType(name, withAddress).value, n), false))
  {
    var d := Decimal(n);
    var s := name + "[" + d + "]";
    assert forall i :: 0 <= i < |d| ==> IsDigit(d[i]);
    assert s == name + "[" + (d + "]");
    LastBracket(name, d + "]");
    assert s[..|name|] == name && s[|name| + 1..] == d + [']'] + "";
    SplitFirst(d, "", ']');
    ParseDecimal(n, USIZE);
    assert s[|s| - 1] == ']' && s[|s| - 2] == d[|d| - 1];
    FixedDispatch(s);
  }

  lemma {:induction false} FixedDispatch(s: string)
    requires |s| >= 2 && s[|s| - 1] == ']' && IsDigit(s[|s| - 2])
    ensures s != "()" && !EndsWith(s, ")") && !EndsWith(s, "[]") && EndsWith(s, "]")
  {
    Ends(s, "", ")");
    assert s[|s| - 2..][0] == s[|s| - 2];
    assert s[|s| - 1..] == "]";
  }

  lemma {:induction false} TupleName(names: seq<string>, values: seq<Abi>, withAddress: Option<WordData>)
    requires |names| == |values| > 0
    requires forall i :: 0 <= i < |names| ==> IsPiece(names[i]) && GetAbiType(names[i], withAddress) == Ok(values[i])
    requires forall i :: 0 <= i < |names| ==> names[i] != ""
    ensures GetAbiType("(" + Join(names) + ")", withAddress) == Ok(AArray(values, false))
  {
    var inner := Join(names);
    var s := "(" + inner + ")";
    SplitJoinIff(names);
    assert s[..1] == "(" && s[|s| - 1..] == ")" && s[1..|s| - 1] == inner;
    assert |inner| > 0;
    GetAllOf(names, values, withAddress, |s|, 0);
    assert names[0..] == names && values[0..] == values;
  }

  /** Each name has its value. */
  ghost predicate Parses(names: seq<string>, values: seq<Abi>, withAddress: Option<WordData>) {
    |names| == |values| && forall i :: 0 <= i < |names| ==> GetAbiType(names[i], withAddress) == Ok(values[i])
  }

  lemma {:induction false} GetAllOf(
      names: seq<string>, values: seq<Abi>, withAddress: Option<WordData>, bound: nat, k: nat)
    requires Parses(names, values, withAddress) && k <= |names|
    requires forall i :: 0 <= i < |names| ==> |names[i]| < bound
    ensures GetAll(names[k..], withAddress, bound) == Ok(values[k..])
    decreases |names| - k
  {
    if k < |names| {
      GetAllOf(names, values, withAddress, bound, k + 1);
      assert names[k..][1..] == names[k + 1..] && values[k..] == [values[k]] + values[k + 1..];
      GetAllCons(names[k..], withAddress, bound, values[k], values[k + 1..]);
    }
  }

  lemma GetAllCons(names: seq<string>, withAddress: Option<WordData>, bound: nat, v: Abi, vs: seq<Abi>)
    requires names != [] && forall i :: 0 <= i < |names| ==> |names[i]| < bound
    requires GetAbiType(names[0], withAddress) == Ok(v) && GetAll(names[1..], withAddress, bound) == Ok(vs)
    ensures GetAll(names, withAddress, bound) == Ok([v] + vs)
  {}

  lemma {:induction false} NameNonEmpty(t: Sol)
    ensures Name(t) != ""
  {}

  /** The parser inverts the printer: it gives the default value of the printed type. */
  lemma {:induction false} ParserInvertsPrinter(t: Sol, withAddress: Option<WordData>)
    requires WellFormed(t)
    ensures GetAbiType(Name(t), withAddress) == Ok(Default(t, withAddress))
  {
    if t.List? {
      ParserInvertsPrinter(t.element, withAddress);
      ListName(Name(t.element), withAddress);
    } else if t.Fixed? {
      ParserInvertsPrinter(t.element, withAddress);
      FixedName(Name(t.element), t.length, withAddress);
    } else if t.Tuple? {
      var ts := t.members;
      if ts == [] {
        assert Name(t) == "()";
      } else {
        forall i | 0 <= i < |ts|
          ensures IsPiece(Name(ts[i])) && Name(ts[i]) != ""
                  && GetAbiType(Name(ts[i]), withAddress) == Ok(Default(ts[i], withAddress)) {
          ParserInvertsPrinter(ts[i], withAddress);
          NameIsPiece(ts[i]);
          NameNonEmpty(ts[i]);
        }
        TupleName(NamesOf(ts), Defaults(ts, withAddress), withAddress);
      }
    } else {
      ElementaryName(t, withAddress);
    }
  }

  // ---- the default value is a value of the type ----

  function TypeOf(t: Sol): AbiType {
    match t
    case Uint(b) => TWord(b / 8, false, false)
    case Int(b) => TWord(b / 8, false, false)
    case Address => TWord(ADDRESS_BYTES, true, false)
    case Bool => TWord(1, false, false)
    case FixedBytes(n) => TWord(n, false, true)
    case DynBytes => TDynamic
    case Str => TDynamic
    case List(e) => TList(TypeOf(e))
    case Fixed(e, n) => TTuple(seq(n, i => TypeOf(e)))
    case Tuple(ts) => TTuple(seq(|ts|, i requires 0 <= i < |ts| => TypeOf(ts[i])))
  }

  /** Exactly one element in every dynamic array, at every depth. */
  ghost predicate OneEach(v: Abi) {
    v.AArray? ==> (v.dynamicSize ==> |v.items| == 1) && forall i :: 0 <= i < |v.items| ==> OneEach(v.items[i])
  }

  /** No member of the type is an empty tuple. */
  ghost predicate NoUnit(t: Sol) {
    match t
    case List(e) => NoUnit(e)
    case Fixed(e, n) => n == 0 || NoUnit(e)
    case Tuple(ts) => |ts| > 0 && forall i :: 0 <= i < |ts| ==> NoUnit(ts[i])
    case _ => true
  }

  /** What the parser builds has the type that was printed, exactly when that has no empty tuple inside. */
  lemma {:induction false} DefaultHasTypeIff(t: Sol, withAddress: Option<WordData>)
    requires WellFormed(t) && (withAddress.Some? ==> |withAddress.value| == ADDRESS_BYTES)
    ensures HasType(Default(t, withAddress), TypeOf(t)) <==> NoUnit(t)
    ensures OneEach(Default(t, withAddress))
  {
    match t
    case List(e) =>
      DefaultHasTypeIff(e, withAddress);
      ListTyped(Default(e, withAddress), TypeOf(e));
    case Fixed(e, n) =>
      DefaultHasTypeIff(e, withAddress);
      FixedTyped(Default(e, withAddress), TypeOf(e), n);
    case Tuple(ts) =>
      forall i | 0 <= i < |ts|
        ensures (HasType(Default(ts[i], withAddress), TypeOf(ts[i])) <==> NoUnit(ts[i]))
                && OneEach(Default(ts[i], withAddress))
      {
        DefaultHasTypeIff(ts[i], withAddress);
      }
      TupleTyped(ts, withAddress);
    case _ =>
  }

  lemma {:induction false} ListTyped(v: Abi, t: AbiType)
    ensures HasType(AArray([v], true), TList(t)) <==> HasType(v, t)
    ensures OneEach(AArray([v], true)) <==> OneEach(v)
  {
    assert [v][0] == v;
  }

  lemma {:induction false} FixedTyped(v: Abi, t: AbiType, n: nat)
    ensures HasType(AArray(Repeat(v, n), false), TTuple(seq(n, i => t))) <==> n == 0 || HasType(v, t)
    ensures OneEach(v) ==> OneEach(AArray(Repeat(v, n), false))
  {
    if n > 0 {
      assert Repeat(v, n)[0] == v;
    }
  }

  lemma {:induction false} TupleTyped(ts: seq<Sol>, withAddress: Option<WordData>)
    requires forall i :: 0 <= i < |ts| ==>
             (HasType(Default(ts[i], withAddress), TypeOf(ts[i])) <==> NoUnit(ts[i]))
                 && OneEach(Default(ts[i], withAddress))
    ensures HasType(Default(Tuple(ts), withAddress), TypeOf(Tuple(ts))) <==> NoUnit(Tuple(ts))
    ensures OneEach(Default(Tuple(ts), withAddress))
  {
    if ts != [] {
      var vs := Defaults(ts, withAddress);
      var tt := TypeOf(Tuple(ts));
      assert forall i :: 0 <= i < |ts| ==> vs[i] == Default(ts[i], withAddress) && tt.members[i] == TypeOf(ts[i]);
      if NoUnit(Tuple(ts)) {
        forall i | 0 <= i < |ts| ensures HasType(vs[i], tt.members[i]) {
        }
      }
      if HasType(AArray(vs, false), tt) {
        forall i | 0 <= i < |ts| ensures NoUnit(ts[i]) {
          assert HasType(vs[i], tt.members[i]);
        }
      }
    }
  }

  /**
   * From the interface description to the default arguments: unless a fixed-length array of tuples
   * stops `process_input`, parsing the printed name gives the default value of the argument tuple.
   */
  lemma {:induction false} DescribedArgumentsParse(ts: seq<Sol>, withAddress: Option<WordData>)
    requires WellFormed(Tuple(ts))
    ensures var inputs := Components(Tuple(ts));
            var name := Parenthesized(Processed(inputs));
            if NoFixedTuple(Tuple(ts)) then
              name.Some? && GetAbiType(name.value, withAddress) == Ok(Default(Tuple(ts), withAddress))
            else name.None?
  {
    var input := Described(Tuple(ts));
    ProcessInputPrints(Tuple(ts), input);
    assert Spelled(Tuple(ts)) == "tuple";
    ParserInvertsPrinter(Tuple(ts), withAddress);
  }

  // ---- parsed templates decode ----

  lemma {:induction false} GoodHasNoUnit(t: Sol)
    requires GoodType(TypeOf(t))
    ensures NoUnit(t)
  {
    match t
    case List(e) => GoodHasNoUnit(e);
    case Fixed(e, n) =>
      var members := TypeOf(t).members;
      assert members[0] == TypeOf(e) && GoodType(members[0]);
      GoodHasNoUnit(e);
    case Tuple(ts) =>
      forall i | 0 <= i < |ts| ensures NoUnit(ts[i]) {
        assert TypeOf(t).members[i] == TypeOf(ts[i]);
        GoodHasNoUnit(ts[i]);
      }
    case _ =>
  }

  lemma {:induction false} OneEachNoEmptyList(v: Abi, t: AbiType)
    requires Typed(v, t) && OneEach(v)
    ensures NoEmptyList(v)
    decreases v
  {
    if v.AArray? {
      forall i | 0 <= i < |v.items| ensures NoEmptyList(v.items[i]) {
        MemberTyped(v, t, i);
        OneEachNoEmptyList(v.items[i], MemberType(t, i));
      }
    }
  }

  /**
   * The template parsed from a type's printed name decodes the encoding of every value of that
   * type, whatever bytes follow it, to that value's data.
   */
  lemma ParsedTemplateReads(t: Sol, withAddress: Option<WordData>, v: Abi, trailing: Bytes)
    requires WellFormed(t) && Typed(v, TypeOf(t)) && (withAddress.Some? ==> |withAddress.value| == ADDRESS_BYTES)
    requires |Encode(v) + trailing| < USIZE
    ensures var r := GetAbiType(Name(t), withAddress);
            r.Ok? && var d := Decode(r.value, Encode(v) + trailing);
            d.Some? && SameContent(d.value, v) && Encode(d.value) == Encode(v)
  {
    var r := Default(t, withAddress);
    ParserInvertsPrinter(t, withAddress);
    GoodHasNoUnit(t);
    DefaultHasTypeIff(t, withAddress);
    OneEachNoEmptyList(r, TypeOf(t));
    NoEmptyListFits(r, v, TypeOf(t));
    GoodIsSane(TypeOf(t));
    DecodeThenEncode(r, v, TypeOf(t), trailing);
  }
}
