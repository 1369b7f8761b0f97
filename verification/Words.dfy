/**
  Bytes, little-endian 64-bit words, and the size_t arithmetic of the C sources: sums and products
  modulo 2^64, and the masking form of rounding up to a power of two.
 */
module Words {

  type byte = b: int | 0 <= b < 256

  type Bytes = seq<byte>

  const ESC: byte := 0x1B
  const BRACKET: byte := 0x5B

  function Min(a: nat, b: nat): nat { if a < b then a else b }

  const TWO64: nat := 0x1_0000_0000_0000_0000

  type size_t = n: nat | n < TWO64

  /** Unsigned addition: one carry out of the top bit is lost. */
  function Add(a: size_t, b: size_t): size_t { Wrapped(a + b) }

  function Sub(a: size_t, b: size_t): size_t { if a < b then a + TWO64 - b else a - b }

  /** A sum of two words, reduced modulo 2^64. */
  function Wrapped(sum: nat): size_t
    requires sum < 2 * TWO64
  {
    if sum < TWO64 then sum else sum - TWO64
  }

  function Mul(a: size_t, b: size_t): size_t { (a * b) % TWO64 }

  /** Bitwise and, bit by bit. */
  function And(a: nat, b: nat): nat {
    if a == 0 || b == 0 then 0 else (if a % 2 == 1 && b % 2 == 1 then 1 else 0) + 2 * And(a / 2, b / 2)
  }

  /** Bitwise complement of a 64-bit word. */
  function Not(a: size_t): size_t { TWO64 - 1 - a }

  /** The ALIGN macro. */
  function Align(x: size_t, a: size_t): size_t
    requires a > 0
  {
    AndBounded(Sub(Add(x, a), 1), Not(Sub(a, 1)));
    And(Sub(Add(x, a), 1), Not(Sub(a, 1)))
  }

  lemma AndBounded(a: nat, b: nat)
    ensures And(a, b) <= a
  {
  }

  function Pow2(k: nat): (p: nat)
    ensures p > 0
  {
    if k == 0 then 1 else 2 * Pow2(k - 1)
  }

  ghost predicate PowerOfTwo(a: nat) { exists k: nat :: a == Pow2(k) }

  lemma {:induction false} Pow2Monotone(k: nat, n: nat)
    requires k <= n
    ensures Pow2(k) <= Pow2(n)
    decreases n - k
  {
    if k < n {
      Pow2Monotone(k + 1, n);
    }
  }

  lemma {:induction false} Pow2Add(k: nat, n: nat)
    ensures Pow2(k + n) == Pow2(k) * Pow2(n)
  {
    if k > 0 {
      Pow2Add(k - 1, n);
    }
  }

  lemma Pow2Of64()
    ensures Pow2(64) == TWO64
  {
    assert Pow2(4) == 16;
    Pow2Add(4, 4);
    assert Pow2(8) == 256;
    hide Pow2;
    Pow2Add(8, 8);
    assert Pow2(16) == 0x1_0000;
    Pow2Add(16, 16);
    assert Pow2(32) == 0x1_0000_0000;
    Pow2Add(32, 32);
  }

  /** The largest multiple of d up to x. */
  function Cleared(x: nat, d: nat): (r: nat)
    requires d > 0
    ensures r <= x < r + d
  {
    if x < d then 0 else d + Cleared(x - d, d)
  }

  lemma {:induction false} HalveCleared(x: nat, p: nat)
    requires p > 0
    ensures Cleared(x, 2 * p) == 2 * Cleared(x / 2, p)
    decreases x
  {
    if x >= 2 * p {
      HalveCleared(x - 2 * p, p);
    }
  }

  lemma {:induction false} ClearedIsMultiple(x: nat, d: nat)
    requires d > 0
    ensures Cleared(x, d) % d == 0
  {
    if x >= d {
      ClearedIsMultiple(x - d, d);
      NextMultiple(Cleared(x - d, d), d);
    }
  }

  lemma NextMultiple(y: nat, d: nat)
    requires d > 0 && y % d == 0
    ensures (d + y) % d == 0
  {
    assert y == d * (y / d) + y % d;
    assert d * (y / d + 1) == d * (y / d) + d;
    ModUnique(d + y, d, y / d + 1, 0);
  }

  /** The remainder is determined by any division with a small enough rest. */
  lemma ModUnique(x: int, d: nat, q: int, r: nat)
    requires d > 0 && r < d && x == d * q + r
    ensures x % d == r && x / d == q
  {
    var e := x / d - q;
    assert x == d * (x / d) + x % d;
    Distribute(d, x / d, q);
    if e > 0 {
      MulMonotone(1, e, d);
    } else if e < 0 {
      MulMonotone(e, -1, d);
    }
  }

  lemma Distribute(d: int, a: int, b: int)
    ensures d * (a - b) == d * a - d * b
  {
  }

  lemma AndUnfolds(a: nat, b: nat)
    ensures And(a, b) == (if a % 2 == 1 && b % 2 == 1 then 1 else 0) + 2 * And(a / 2, b / 2)
  {
  }

  lemma AndEven(x: nat, m: nat)
    ensures And(x, 2 * m) == 2 * And(x / 2, m)
  {
    AndUnfolds(x, 2 * m);
    hide And;
    assert 2 * m / 2 == m && 2 * m % 2 == 0;
  }

  lemma AndOdd(x: nat, m: nat)
    ensures And(x, 2 * m + 1) == x % 2 + 2 * And(x / 2, m)
  {
    AndUnfolds(x, 2 * m + 1);
    hide And;
    assert (2 * m + 1) / 2 == m && (2 * m + 1) % 2 == 1;
  }

  /** A mask over the upper bits clears twice the remainder once a zero bit is put below it. */
  lemma MaskOverZeroBit(x: nat, w: nat, p: nat)
    requires 0 < p <= w && And(x / 2, w - p) == Cleared(x / 2, p)
    ensures And(x, 2 * w - 2 * p) == Cleared(x, 2 * p)
  {
    AndEven(x, w - p);
    HalveCleared(x, p);
    hide And, Cleared;
  }

  lemma MaskOfOnes(x: nat, w: nat)
    requires 0 < w && And(x / 2, w - 1) == x / 2
    ensures And(x, 2 * w - 1) == x
  {
    hide And;
    AndOdd(x, w - 1);
    assert 2 * (w - 1) + 1 == 2 * w - 1;
  }

  /** Clearing the low k bits of a word of 'width' bits leaves a multiple of 2^k. */
  lemma {:induction false} AndHighMask(x: nat, width: nat, k: nat)
    requires k <= width && x < Pow2(width)
    ensures Pow2(k) <= Pow2(width) && And(x, Pow2(width) - Pow2(k)) == Cleared(x, Pow2(k))
  {
    Pow2Monotone(k, width);
    if k < width {
      var w := Pow2(width - 1);
      assert Pow2(width) == 2 * w;
      var k' := if k == 0 then 0 else k - 1;
      AndHighMask(x / 2, width - 1, k');
      if k == 0 {
        MaskOfOnes(x, w);
      } else {
        MaskOverZeroBit(x, w, Pow2(k'));
      }
    }
    hide And;
  }

  lemma Exponent(a: size_t) returns (k: nat)
    requires PowerOfTwo(a)
    ensures a == Pow2(k) && k < 64 && Pow2(64) == TWO64
  {
    k :| a == Pow2(k);
    Pow2Of64();
    if k >= 64 {
      Pow2Monotone(64, k);
    }
  }

  /** r is the least multiple of a at or above x. */
  ghost predicate LeastMultiple(r: nat, x: nat, a: nat)
    requires a > 0
  {
    && r % a == 0
    && x <= r
    && forall m: nat | m % a == 0 && x <= m :: r <= m
  }

  /** Rounding up, in unbounded arithmetic. */
  function RoundUp(x: nat, a: nat): nat
    requires a > 0
  {
    Cleared(x + a - 1, a)
  }

  lemma RoundUpIsLeast(x: nat, a: nat)
    requires a > 0
    ensures LeastMultiple(RoundUp(x, a), x, a) && RoundUp(x, a) < x + a
  {
    var r := RoundUp(x, a);
    ClearedIsMultiple(x + a - 1, a);
    forall m: nat | m % a == 0 && x <= m
      ensures r <= m
    {
      MultiplesAreApart(m, r, a);
    }
  }

  /** A smaller multiple is smaller by at least a. */
  lemma MultiplesAreApart(m: nat, r: nat, a: nat)
    requires a > 0 && m % a == 0 && r % a == 0
    ensures r <= m || m + a <= r
  {
    assert m == a * (m / a) && r == a * (r / a);
    if m / a < r / a {
      MulMonotone(m / a + 1, r / a, a);
    } else {
      MulMonotone(r / a, m / a, a);
    }
  }

  lemma MulMonotone(x: int, y: int, a: nat)
    requires x <= y
    ensures a * x <= a * y
  {
    assert a * (y - x) >= 0;
    assert a * (y - x) == a * y - a * x;
  }

  lemma AlignMasks(x: size_t, a: size_t)
    requires PowerOfTwo(a)
    ensures Align(x, a) == Cleared(Wrapped(x + a - 1), a)
  {
    var k := Exponent(a);
    AndHighMask(Wrapped(x + a - 1), 64, k);
    hide And, Cleared, Pow2, PowerOfTwo;
    assert Sub(Add(x, a), 1) == Wrapped(x + a - 1);
    assert Not(Sub(a, 1)) == TWO64 - a;
  }

  /** The macro rounds up exactly, for every power of two, as long as the sum inside it does not wrap. */
  lemma AlignRoundsUp(x: size_t, a: size_t)
    requires PowerOfTwo(a) && x + a - 1 < TWO64
    ensures Align(x, a) == RoundUp(x, a)
    ensures LeastMultiple(Align(x, a), x, a)
  {
    AlignMasks(x, a);
    RoundUpIsLeast(x, a);
    hide Align, LeastMultiple;
  }

  /** When the sum wraps, what is left of it is below a, and the result is 0. */
  lemma AlignWraps(x: size_t, a: size_t)
    requires PowerOfTwo(a) && x + a - 1 >= TWO64
    ensures Align(x, a) == 0
  {
    AlignMasks(x, a);
    hide Align;
  }

  /** Dividing the wrapped product back finds out exactly the products that do not fit. */
  lemma DivideBack(n: size_t, size: size_t)
    requires n > 0
    ensures Mul(n, size) / n != size <==> n * size >= TWO64
  {
    if n * size < TWO64 {
      ModUnique(n * size, n, size, 0);
    } else {
      var total := Mul(n, size);
      assert total == n * (total / n) + total % n;
    }
  }

  /** Sequences that agree element by element on a stretch have equal slices there. */
  lemma SameSlice(t: Bytes, at: nat, s: Bytes, from: nat, len: nat)
    requires at + len <= |t| && from + len <= |s|
    requires forall i | at <= i < at + len :: t[i] == s[i - at + from]
    ensures t[at..at + len] == s[from..from + len]
  {
  }

  // ---- Bytes in memory ---------------------------------------------------------------------

  function Zeros(n: nat): (z: seq<byte>)
    ensures |z| == n && forall i | 0 <= i < n :: z[i] == 0
  {
    seq(n, _ => 0)
  }

  lemma SamePrefix(m: seq<byte>, n: seq<byte>, len: nat, from: nat, to: nat)
    requires len <= |m| && len <= |n| && m[..len] == n[..len] && from <= to <= len
    ensures m[from..to] == n[from..to]
  {
    assert m[from..to] == m[..len][from..to];
    assert n[from..to] == n[..len][from..to];
  }

  // ---- Decimal numbers in streams --------------------------------------------------------------

  function Digits(n: nat): (s: Bytes)
    ensures |s| > 0 && forall i | 0 <= i < |s| :: 0x30 <= s[i] <= 0x39
  {
    if n < 10 then [0x30 + n] else Digits(n / 10) + [0x30 + n % 10]
  }

  // ---- Little-endian words in memory -----------------------------------------------------

  const WORD := 8

  function Encode(n: nat, len: nat): (s: seq<byte>)
    ensures |s| == len
  {
    if len == 0 then [] else [n % 256] + Encode(n / 256, len - 1)
  }

  function Decode(s: seq<byte>): nat {
    if s == [] then 0 else s[0] + 256 * Decode(s[1..])
  }

  function Pow256(k: nat): nat { if k == 0 then 1 else 256 * Pow256(k - 1) }

  /** A number that fits is read back as it was written. */
  lemma {:induction false} DecodeEncode(n: nat, len: nat)
    requires n < Pow256(len)
    ensures Decode(Encode(n, len)) == n
  {
    if len > 0 {
      DecodeEncode(n / 256, len - 1);
      assert Encode(n, len)[1..] == Encode(n / 256, len - 1);
    }
  }

  /** The lowest byte comes first. */
  lemma LowestFirst()
    ensures Encode(0xA110CA7E, 8) == [0x7E, 0xCA, 0x10, 0xA1, 0, 0, 0, 0]
  {
    assert Encode(0, 4) == [0, 0, 0, 0] by {
      assert Encode(0, 1) == [0] && Encode(0, 2) == [0, 0] && Encode(0, 3) == [0, 0, 0];
    }
    assert Encode(0xA1, 5) == [0xA1] + Encode(0, 4);
    assert Encode(0xA110, 6) == [0x10] + Encode(0xA1, 5);
    assert Encode(0xA110CA, 7) == [0xCA] + Encode(0xA110, 6);
  }

  lemma WordFits(n: size_t)
    ensures Decode(Encode(n, WORD)) == n
  {
    assert Pow256(3) == 0x100_0000 && Pow256(5) == 0x100_0000_0000 && Pow256(7) == 0x100_0000_0000_0000;
    DecodeEncode(n, WORD);
  }
}
