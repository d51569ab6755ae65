/** Bytes, 32-byte words and the big-endian size word (`set_size` / `get_size`). */
module Words {
  type Byte = b: int | 0 <= b < 256
  type Bytes = seq<Byte>

  const WORD := 32
  /** One more than the largest `usize` of the 64-bit target. */
  const USIZE := 0x1_0000_0000_0000_0000

  datatype Option<+T> = None | Some(value: T)

  function Zeros(n: nat): (z: Bytes)
    ensures |z| == n
    ensures forall i :: 0 <= i < n ==> z[i] == 0
  {
    seq(n, i => 0)
  }

  /** The smallest multiple of 32 that is at least `x`. */
  function Roundup(x: nat): (r: nat)
    ensures r % WORD == 0 && x <= r < x + WORD
  {
    (x + WORD - 1) / WORD * WORD
  }

  /** The low `w` bytes of `n`, most significant first. */
  function BigEndian(n: nat, w: nat): (b: Bytes)
    ensures |b| == w
    decreases w, n
  {
    if w == 0 then [] else BigEndian(n / 256, w - 1) + [n % 256]
  }

  function FromBigEndian(b: Bytes): nat {
    if b == [] then 0 else FromBigEndian(b[..|b| - 1]) * 256 + b[|b| - 1]
  }

  function SizeWord(n: nat): (b: Bytes)
    ensures |b| == WORD
  {
    BigEndian(n, WORD)
  }

  /** What `get_size` reads: the first 32 bytes, truncated to a `usize`. */
  function ReadSize(b: Bytes): (n: nat)
    requires |b| >= WORD
  {
    FromBigEndian(b[..WORD]) % USIZE
  }

  function Pow256(w: nat): (p: nat)
  {
    if w == 0 then 1 else 256 * Pow256(w - 1)
  }

  lemma {:induction false} Pow256Grows(j: nat, k: nat)
    requires j <= k
    ensures Pow256(j) <= Pow256(k)
  {
    if j < k {
      Pow256Grows(j, k - 1);
    }
  }

  lemma {:induction false} BigEndianInverse(n: nat, w: nat)
    requires n < Pow256(w)
    ensures FromBigEndian(BigEndian(n, w)) == n
  {
    if w > 0 {
      BigEndianInverse(n / 256, w - 1);
      var b := BigEndian(n, w);
      assert b[..|b| - 1] == BigEndian(n / 256, w - 1);
    }
  }

  lemma DivAgain(n: nat, base: nat, p: nat)
    requires base > 0 && p > 0 && base * p > 0
    ensures n / base / p == n / (base * p)
  {
    var m, low := n / base, n % base;
    var q, r := m / p, m % p;
    assert n == m * base + low && m == q * p + r;
    Regroup(q, p, r, base, low);
    Remainder(base, r, low, p);
    Quotient(n, base * p, q, r * base + low);
  }

  lemma Regroup(q: nat, p: nat, r: nat, base: nat, low: nat)
    ensures (q * p + r) * base + low == q * (base * p) + (r * base + low)
  {}

  lemma Remainder(base: nat, r: nat, low: nat, p: nat)
    requires low < base && r < p
    ensures r * base + low < base * p
  {
    assert (r + 1) * base <= p * base;
  }

  lemma Quotient(n: nat, d: nat, q: nat, r: nat)
    requires n == q * d + r && r < d
    ensures n / d == q
  {
    var e := n / d - q;
    assert n == n / d * d + n % d;
    assert e * d == r - n % d;
    MultipleGrows(d, e);
  }

  lemma MultipleGrows(d: nat, e: int)
    ensures e >= 1 ==> e * d >= d
    ensures e <= -1 ==> e * d <= 0 - d
  {
    if e >= 1 {
      assert e * d == d + (e - 1) * d;
    } else if e <= -1 {
      assert e * d == 0 - d - (-e - 1) * d;
    }
  }

  lemma {:induction false} Pow256Positive(w: nat)
    ensures Pow256(w) > 0
  {
    if w > 0 {
      Pow256Positive(w - 1);
    }
  }

  /** Byte `j` of `w` is the digit of weight `256 ^ (w - 1 - j)`. */
  lemma {:induction false} BigEndianDigit(n: nat, w: nat, j: nat)
    requires j < w
    ensures Pow256(w - 1 - j) > 0 && BigEndian(n, w)[j] == n / Pow256(w - 1 - j) % 256
  {
    Pow256Positive(w - 1 - j);
    if j < w - 1 {
      BigEndianDigit(n / 256, w - 1, j);
      DivAgain(n, 256, Pow256(w - 2 - j));
    }
  }

  lemma WordHoldsUsize(w: nat)
    requires w >= 8
    ensures USIZE <= Pow256(w)
  {
    assert Pow256(8) == USIZE;
    Pow256Grows(8, w);
  }

  lemma SizeFits(n: nat, w: nat)
    requires n < USIZE && w >= 8
    ensures FromBigEndian(BigEndian(n, w)) == n
  {
    WordHoldsUsize(w);
    BigEndianInverse(n, w);
  }

  /** A size word written by `set_size` is read back by `get_size`, whatever follows it. */
  lemma SizeWordReadBack(n: nat, b: Bytes)
    requires n < USIZE
    requires SizeWord(n) <= b
    ensures ReadSize(b) == n
  {
    SizeFits(n, WORD);
    assert b[..WORD] == SizeWord(n);
  }

  /** `set_size`: writes 32 bytes from index 31 down to index 0 of the buffer. */
  method SetSize(buffer: array<Byte>, len: nat)
    requires buffer.Length >= WORD
    modifies buffer
    ensures buffer[..WORD] == SizeWord(len)
    ensures buffer[WORD..] == old(buffer[WORD..])
  {
    var rem := len;
    for i := 0 to WORD
      invariant BigEndian(rem, WORD - i) + buffer[WORD - i..WORD] == SizeWord(len)
      invariant buffer[WORD..] == old(buffer[WORD..])
    {
      ghost var done := buffer[WORD - i..WORD];
      buffer[31 - i] := rem % 256;
      assert buffer[WORD - i - 1..WORD] == [rem % 256] + done;
      rem := rem / 256;
    }
    assert BigEndian(rem, 0) + buffer[..WORD] == buffer[..WORD];
  }

  /** `get_size`: the shift drops what leaves the 64-bit register. */
  method GetSize(b: Bytes) returns (size: nat)
    requires |b| >= WORD
    ensures size == ReadSize(b)
  {
    size := 0;
    for i := 0 to WORD
      invariant size == FromBigEndian(b[..i]) % USIZE
    {
      assert b[..i + 1][..i] == b[..i];
      ShiftIn(FromBigEndian(b[..i]), b[i]);
      size := size * 256 % USIZE + b[i];
    }
  }

  lemma ShiftIn(x: nat, b: Byte)
    ensures (x % USIZE) * 256 % USIZE + b == (x * 256 + b) % USIZE
  {
    var q, r := x / USIZE, x % USIZE;
    var q2, r2 := r * 256 / USIZE, r * 256 % USIZE;
    assert x * 256 + b == (q * 256 + q2) * USIZE + (r2 + b);
    assert r2 % 256 == 0;
    assert (x * 256 + b) / USIZE == q * 256 + q2;
  }
}
