/** Texts: decimal and hexadecimal numbers, splitting at a separator, searching. */
module Text {
  import opened Words

  predicate IsDigit(c: char) { '0' <= c <= '9' }

  predicate AllDigits(s: string) { forall i :: 0 <= i < |s| ==> IsDigit(s[i]) }

  function DigitChar(d: nat): char
    requires d < 10
  {
    '0' + d as char
  }

  function Decimal(n: nat): (s: string)
    ensures |s| > 0
    ensures AllDigits(s)
  {
    if n < 10 then [DigitChar(n)] else Decimal(n / 10) + [DigitChar(n % 10)]
  }

  function DigitsValue(s: string): nat
    requires AllDigits(s)
  {
    if s == "" then 0 else 10 * DigitsValue(s[..|s| - 1]) + (s[|s| - 1] as nat - '0' as nat)
  }

  lemma {:induction false} DecimalReadsBack(n: nat)
    ensures DigitsValue(Decimal(n)) == n
  {
    if n >= 10 {
      DecimalReadsBack(n / 10);
      assert Decimal(n)[..|Decimal(n)| - 1] == Decimal(n / 10);
    }
  }

  function Pow10(j: nat): (p: nat)
    ensures p > 0
  {
    if j == 0 then 1 else 10 * Pow10(j - 1)
  }

  /** The digit of weight `10 ^ j`, counted from the end. */
  lemma {:induction false} DecimalDigit(n: nat, j: nat)
    requires j < |Decimal(n)|
    ensures Decimal(n)[|Decimal(n)| - 1 - j] == "0123456789"[n / Pow10(j) % 10]
  {
    if j == 0 {
      DigitOf(n % 10);
    } else {
      DecimalDigit(n / 10, j - 1);
      LaterDigit(n, Decimal(n / 10), j);
    }
  }

  lemma LaterDigit(n: nat, front: string, j: nat)
    requires 0 < j <= |front| && front[|front| - j] == "0123456789"[n / 10 / Pow10(j - 1) % 10]
    ensures (front + [DigitChar(n % 10)])[|front| - j] == "0123456789"[n / Pow10(j) % 10]
  {
    DivAgain(n, 10, Pow10(j - 1));
  }

  lemma DigitOf(d: nat)
    requires d < 10
    ensures DigitChar(d) == "0123456789"[d]
  {}

  /** No leading zeros. */
  lemma {:induction false} DecimalLeads(n: nat)
    ensures Decimal(n)[0] == '0' <==> n == 0
    ensures n < 10 <==> |Decimal(n)| == 1
  {
    if n >= 10 {
      DecimalLeads(n / 10);
    }
  }

  /** Leading zeros and a plus sign do not matter to the reader. */
  lemma ParseSpellings(n: nat, zeros: nat, size: nat)
    ensures var s := seq(zeros, _ => '0') + Decimal(n);
            ParseUint(s, size) == ParseUint("+" + s, size) == if n < size then Some(n) else None
  {
    var s := seq(zeros, _ => '0') + Decimal(n);
    ZerosMeanNothing(zeros, Decimal(n));
    DecimalReadsBack(n);
    assert IsDigit(s[0]) && ("+" + s)[1..] == s;
  }

  lemma {:induction false} ZerosMeanNothing(zeros: nat, d: string)
    requires AllDigits(d)
    ensures var s := seq(zeros, _ => '0') + d; AllDigits(s) && DigitsValue(s) == DigitsValue(d)
  {
    var z := seq(zeros, _ => '0');
    if d != "" {
      ZerosMeanNothing(zeros, d[..|d| - 1]);
      assert (z + d)[..|z + d| - 1] == z + d[..|d| - 1];
    } else if zeros > 0 {
      ZerosMeanNothing(zeros - 1, d);
      assert (z + d)[..|z + d| - 1] == seq(zeros - 1, _ => '0') + d;
    }
  }

  /** `str::parse` of an unsigned integer below `size`: digits, after an optional plus sign. */
  function ParseUint(s: string, size: nat): Option<nat> {
    var digits := if |s| > 0 && s[0] == '+' then s[1..] else s;
    if digits != "" && AllDigits(digits) && DigitsValue(digits) < size then Some(DigitsValue(digits)) else None
  }

  lemma ParseDecimal(n: nat, size: nat)
    ensures ParseUint(Decimal(n), size) == if n < size then Some(n) else None
  {
    assert IsDigit(Decimal(n)[0]);
    DecimalReadsBack(n);
  }

  // ---- hexadecimal ----

  function HexChar(d: nat): char
    requires d < 16
  {
    if d < 10 then '0' + d as char else 'a' + (d - 10) as char
  }

  function HexValue(c: char): Option<nat> {
    if '0' <= c <= '9' then Some(c as nat - '0' as nat)
    else if 'a' <= c <= 'f' then Some(c as nat - 'a' as nat + 10)
    else if 'A' <= c <= 'F' then Some(c as nat - 'A' as nat + 10)
    else None
  }

  function HexEncode(b: Bytes): (s: string)
    ensures |s| == 2 * |b|
  {
    if b == [] then "" else [HexChar(b[0] / 16), HexChar(b[0] % 16)] + HexEncode(b[1..])
  }

  function HexDecode(s: string): Option<Bytes> {
    if s == "" then Some([])
    else if |s| == 1 || HexValue(s[0]).None? || HexValue(s[1]).None? || HexDecode(s[2..]).None? then None
    else Some([HexValue(s[0]).value * 16 + HexValue(s[1]).value] + HexDecode(s[2..]).value)
  }

  /** Both cases are read, and nothing else. */
  lemma HexValueIff(c: char, d: nat)
    requires d < 16
    ensures HexValue(c) == Some(d) <==> c == "0123456789abcdef"[d] || c == "0123456789ABCDEF"[d]
    ensures HexValue(c).Some? ==> HexValue(c).value < 16
  {}

  /** An even number of hexadecimal digits, two for each byte, the high one first. */
  lemma {:induction false} HexDecodeIff(s: string)
    ensures HexDecode(s).Some? <==> |s| % 2 == 0 && forall i :: 0 <= i < |s| ==> HexValue(s[i]).Some?
    ensures HexDecode(s).Some? ==> |HexDecode(s).value| == |s| / 2
  {
    if |s| >= 2 {
      HexDecodeIff(s[2..]);
      assert forall i :: 2 <= i < |s| ==> s[i] == s[2..][i - 2];
    }
  }

  lemma {:induction false} HexDecodeAt(s: string, i: nat)
    requires HexDecode(s).Some? && i < |HexDecode(s).value|
    ensures 2 * i + 1 < |s| && HexValue(s[2 * i]).Some? && HexValue(s[2 * i + 1]).Some?
    ensures HexDecode(s).value[i] == 16 * HexValue(s[2 * i]).value + HexValue(s[2 * i + 1]).value
  {
    if i > 0 {
      HexDecodeAt(s[2..], i - 1);
    }
  }

  lemma {:induction false} HexReadsBack(b: Bytes)
    ensures HexDecode(HexEncode(b)) == Some(b)
  {
    if b != [] {
      HexReadsBack(b[1..]);
      assert HexEncode(b)[2..] == HexEncode(b[1..]);
      assert [b[0]] + b[1..] == b;
    }
  }

  lemma {:induction false} HexDigits(b: Bytes, i: nat)
    requires i < |b|
    ensures HexEncode(b)[2 * i] == "0123456789abcdef"[b[i] / 16]
    ensures HexEncode(b)[2 * i + 1] == "0123456789abcdef"[b[i] % 16]
  {
    if i == 0 {
      HexDigit(b[0] / 16);
      HexDigit(b[0] % 16);
    } else {
      HexDigits(b[1..], i - 1);
    }
  }

  lemma HexDigit(d: nat)
    requires d < 16
    ensures HexChar(d) == "0123456789abcdef"[d]
  {}

  /** Neither a blank nor a line end. */
  predicate Plain(s: string) { forall i :: 0 <= i < |s| ==> s[i] != ' ' && s[i] != '\n' }

  lemma DecimalPlain(n: nat)
    ensures Plain(Decimal(n))
  {
    forall i | 0 <= i < |Decimal(n)| ensures Decimal(n)[i] != ' ' && Decimal(n)[i] != '\n' {
      assert IsDigit(Decimal(n)[i]);
    }
  }

  lemma {:induction false} HexPlain(b: Bytes)
    ensures Plain(HexEncode(b))
  {
    if b != [] {
      HexPlain(b[1..]);
    }
  }

  // ---- splitting ----

  predicate Without(s: string, sep: char) { forall i :: 0 <= i < |s| ==> s[i] != sep }

  /** `str::split` at a one-character separator. */
  function Split(s: string, sep: char): (ps: seq<string>)
    ensures |ps| > 0
  {
    if s == "" then [""]
    else
      var rest := Split(s[1..], sep);
      if s[0] == sep then [""] + rest else [[s[0]] + rest[0]] + rest[1..]
  }

  lemma {:induction false} SplitFirst(p: string, rest: string, sep: char)
    requires Without(p, sep)
    ensures Split(p + [sep] + rest, sep) == [p] + Split(rest, sep)
  {
    var s := p + [sep] + rest;
    if p == "" {
      assert s[1..] == rest;
    } else {
      SplitFirst(p[1..], rest, sep);
      assert s[1..] == p[1..] + [sep] + rest;
      assert [p[0]] + p[1..] == p;
    }
  }

  /** Every piece followed by the separator. */
  function Terminated(ps: seq<string>, sep: char): string {
    if ps == [] then "" else ps[0] + [sep] + Terminated(ps[1..], sep)
  }

  /** Splitting takes terminated pieces apart again, with an empty piece after the last separator. */
  lemma {:induction false} SplitTerminated(ps: seq<string>, sep: char)
    requires forall i :: 0 <= i < |ps| ==> Without(ps[i], sep)
    ensures Split(Terminated(ps, sep), sep) == ps + [""]
  {
    if ps != [] {
      SplitTerminated(ps[1..], sep);
      SplitFirst(ps[0], Terminated(ps[1..], sep), sep);
      assert [ps[0]] + (ps[1..] + [""]) == ps + [""];
    }
  }

  /** The pieces of any text have no separator in them, ... */
  lemma {:induction false} SplitWithout(s: string, sep: char)
    ensures forall i :: 0 <= i < |Split(s, sep)| ==> Without(Split(s, sep)[i], sep)
  {
    if s != "" {
      SplitWithout(s[1..], sep);
      var rest := Split(s[1..], sep);
      assert Without(rest[0], sep) && forall i :: 1 <= i < |rest| ==> Without(rest[i], sep);
    }
  }

  /** ... and put together they are the text. */
  lemma {:induction false} TerminatedSplit(s: string, sep: char)
    ensures Terminated(Split(s, sep), sep) == s + [sep]
  {
    if s == "" {
      assert Terminated([""], sep) == "" + [sep] + Terminated([], sep);
    } else {
      var rest := Split(s[1..], sep);
      TerminatedSplit(s[1..], sep);
      assert s + [sep] == [s[0]] + (s[1..] + [sep]);
      if s[0] == sep {
        assert ([""] + rest)[1..] == rest;
      } else {
        var first := [s[0]] + rest[0];
        assert ([first] + rest[1..])[1..] == rest[1..];
        assert first + [sep] + Terminated(rest[1..], sep) == [s[0]] + (rest[0] + [sep] + Terminated(rest[1..], sep));
      }
    }
  }

  lemma {:induction false} TerminatedAppend(ps: seq<string>, qs: seq<string>, sep: char)
    ensures Terminated(ps + qs, sep) == Terminated(ps, sep) + Terminated(qs, sep)
  {
    if ps == [] {
      assert ps + qs == qs;
    } else {
      TerminatedAppend(ps[1..], qs, sep);
      assert (ps + qs)[1..] == ps[1..] + qs;
    }
  }

  lemma {:induction false} TerminatedWithout(ps: seq<string>, sep: char, other: char)
    requires sep != other && forall i :: 0 <= i < |ps| ==> Without(ps[i], other)
    ensures Without(Terminated(ps, sep), other)
  {
    if ps != [] {
      TerminatedWithout(ps[1..], sep, other);
    }
  }

  // ---- searching ----

  predicate OccursAt(s: string, i: nat, part: string) { i + |part| <= |s| && s[i..i + |part|] == part }

  predicate Contains(s: string, part: string) { Find(s, part).Some? }

  /** The first place where `part` occurs. */
  function Find(s: string, part: string): (k: Option<nat>)
    ensures k.Some? ==> OccursAt(s, k.value, part) && forall i :: 0 <= i < k.value ==> !OccursAt(s, i, part)
    ensures k.None? ==> forall i: nat :: !OccursAt(s, i, part)
  {
    if OccursAt(s, 0, part) then Some(0)
    else if s == "" then None
    else
      var k := Find(s[1..], part);
      assert forall i :: 1 <= i ==> OccursAt(s, i, part) == OccursAt(s[1..], i - 1, part) by {
        forall i | 1 <= i ensures OccursAt(s, i, part) == OccursAt(s[1..], i - 1, part) {
          OccursShift(s, i, part);
        }
      }
      if k.Some? then Some(k.value + 1) else None
  }

  lemma OccursShift(s: string, i: nat, part: string)
    requires s != "" && i >= 1
    ensures OccursAt(s, i, part) == OccursAt(s[1..], i - 1, part)
  {
    if i + |part| <= |s| {
      var a, b := s[1..][i - 1..i - 1 + |part|], s[i..i + |part|];
      forall k | 0 <= k < |part| ensures a[k] == b[k] {
        assert a[k] == s[1..][i - 1 + k] == s[i + k];
      }
      assert a == b;
    }
  }
}
