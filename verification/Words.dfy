/** Machine words of the i686 target: bytes, `uint32_t`, and the conversions the C code makes silently. */
module Words {

  type Byte = b: int | 0 <= b < 0x100
  type Half = h: int | 0 <= h < 0x1_0000
  type Word = w: int | 0 <= w < 0x1_0000_0000

  datatype Option<+T> = None | Some(value: T)

  const TWO31 := 0x8000_0000
  const TWO32 := 0x1_0000_0000
  const TWO64 := 0x1_0000_0000_0000_0000

  /** A `uint32_t` passed where an `int` is expected. */
  function Signed(w: Word): int {
    if w < TWO31 then w else w - TWO32
  }

  /** The 64 bits of a `long long` as a signed number. */
  function SignedLong(bits: nat): int {
    if bits < TWO64 / 2 then bits else bits - TWO64
  }

  /** An `int` stored back into a `uint32_t`; also any sum or product of words. */
  function Wrap(i: int): Word {
    i % TWO32
  }

  function Min(a: int, b: int): int {
    if a < b then a else b
  }

  /** `min` of math.h and mathutil.c applied to unsigned operands: it compares them as signed. */
  function SignedMin(a: Word, b: Word): Word {
    if Signed(a) < Signed(b) then a else b
  }

  /** `max` of mathutil.c, likewise. */
  function SignedMax(a: Word, b: Word): Word {
    if Signed(a) > Signed(b) then a else b
  }

  /** The signed comparison gives the smaller of two words exactly when both lie on the same side of 2^31.
      A request below 2^31 against a remainder above it is not cut but raised to the remainder. */
  lemma SignedMinIsMin(a: Word, b: Word)
    ensures SignedMin(a, b) == Min(a, b) <==> (a < TWO31 <==> b < TWO31)
    ensures a < TWO31 <= b ==> SignedMin(a, b) == b
  {
  }

  /** The little-endian 32-bit word starting at `at`. */
  function Le32(bytes: seq<Byte>, at: nat): Word
    requires at + 4 <= |bytes|
  {
    var b0: int, b1: int, b2: int, b3: int := bytes[at], bytes[at + 1], bytes[at + 2], bytes[at + 3];
    b0 + 0x100 * b1 + 0x1_0000 * b2 + 0x100_0000 * b3
  }

  function Le16(bytes: seq<Byte>, at: nat): Half
    requires at + 2 <= |bytes|
  {
    var b0: int, b1: int := bytes[at], bytes[at + 1];
    b0 + 0x100 * b1
  }

  /** The bytes of a word, the lowest one first. */
  function Bytes16(h: Half): (bytes: seq<Byte>)
    ensures |bytes| == 2
  {
    [h % 0x100, h / 0x100]
  }

  function Bytes32(w: Word): (bytes: seq<Byte>)
    ensures |bytes| == 4
  {
    Bytes16(w % 0x1_0000) + Bytes16(w / 0x1_0000)
  }

  /** Reading a word is the inverse of taking it apart. */
  lemma Le16Reads(bytes: seq<Byte>, at: nat, h: Half)
    requires at + 2 <= |bytes|
    ensures Le16(bytes, at) == h <==> bytes[at..at + 2] == Bytes16(h)
  {
    var two := bytes[at..at + 2];
    assert two == [bytes[at], bytes[at + 1]];
    assert two == Bytes16(h) <==> two[0] == h % 0x100 && two[1] == h / 0x100;
  }

  lemma Le32Reads(bytes: seq<Byte>, at: nat, w: Word)
    requires at + 4 <= |bytes|
    ensures Le32(bytes, at) == w <==> bytes[at..at + 4] == Bytes32(w)
  {
    hide Le16, Bytes16;
    var low: int, high: int := w % 0x1_0000, w / 0x1_0000;
    Le16Reads(bytes, at, low);
    Le16Reads(bytes, at + 2, high);
    TwoHalves(bytes, at);
    assert bytes[at..at + 4] == bytes[at..at + 2] + bytes[at + 2..at + 4];
    SameHalves(bytes[at..at + 2], bytes[at + 2..at + 4], Bytes16(low), Bytes16(high));
    if Le32(bytes, at) == w {
      DivMod(w, 0x1_0000, Le16(bytes, at + 2), Le16(bytes, at));
    }
  }

  lemma TwoHalves(bytes: seq<Byte>, at: nat)
    requires at + 4 <= |bytes|
    ensures Le32(bytes, at) == Le16(bytes, at) + 0x1_0000 * Le16(bytes, at + 2)
  {
  }

  lemma SameHalves(a: seq<Byte>, b: seq<Byte>, c: seq<Byte>, d: seq<Byte>)
    requires |a| == |c|
    ensures a + b == c + d <==> a == c && b == d
  {
    if a + b == c + d {
      assert a == (a + b)[..|a|] == (c + d)[..|a|] == c;
      assert b == (a + b)[|a|..] == (c + d)[|a|..] == d;
    }
  }

  /** The bytes of a text. */
  function Ascii(s: string): (bytes: seq<Byte>)
    ensures |bytes| == |s|
  {
    seq(|s|, i requires 0 <= i < |s| => s[i] as int % 0x100)
  }

  lemma AsciiAt(s: string, i: nat)
    requires i < |s|
    ensures Ascii(s)[i] == s[i] as int % 0x100
  {
  }

  // ----- multiplication, division and powers

  lemma MulMonotone(a: int, b: int, n: nat)
    requires a <= b
    ensures a * n <= b * n
  {
  }

  lemma Division(k: nat, n: nat)
    requires n > 0
    ensures k == (k / n) * n + k % n && k % n < n
  {
  }

  /** Quotient and remainder are unique. */
  lemma DivMod(k: nat, n: nat, q: nat, r: nat)
    requires n > 0 && r < n && k == q * n + r
    ensures k / n == q && k % n == r
  {
    Division(k, n);
    if q < k / n {
      MulMonotone(q + 1, k / n, n);
    }
    if k / n < q {
      MulMonotone(k / n + 1, q, n);
    }
  }

  lemma SamePlace(a: nat, s: nat, b: nat, t: nat, n: nat)
    requires s < n && t < n && a * n + s == b * n + t
    ensures a == b && s == t
  {
    DivMod(a * n + s, n, a, s);
    DivMod(b * n + t, n, b, t);
  }

  function Pow(base: nat, k: nat): nat {
    if k == 0 then 1 else Pow(base, k - 1) * base
  }

  lemma {:induction false} PowPositive(base: nat, k: nat)
    requires base > 0
    ensures Pow(base, k) >= 1
  {
    if k > 0 {
      PowPositive(base, k - 1);
      MulMonotone(1, Pow(base, k - 1), base);
    }
  }

  lemma {:induction false} PowSum(base: nat, j: nat, k: nat)
    ensures Pow(base, j + k) == Pow(base, j) * Pow(base, k)
  {
    if k > 0 {
      PowSum(base, j, k - 1);
      MulAssociates(Pow(base, j), Pow(base, k - 1), base);
    }
  }

  lemma MulAssociates(a: int, b: int, c: int)
    ensures a * (b * c) == (a * b) * c
  {
  }

  lemma {:induction false} PowMonotone(base: nat, j: nat, k: nat)
    requires base > 0 && j <= k
    ensures Pow(base, j) <= Pow(base, k)
  {
    if j < k {
      PowMonotone(base, j, k - 1);
      MulMonotone(1, base, Pow(base, k - 1));
    }
  }

  lemma {:induction false} PowBaseMonotone(a: nat, b: nat, k: nat)
    requires a <= b
    ensures Pow(a, k) <= Pow(b, k)
  {
    if k > 0 {
      PowBaseMonotone(a, b, k - 1);
      MulMonotone(Pow(a, k - 1), Pow(b, k - 1), a);
      MulMonotone(a, b, Pow(b, k - 1));
    }
  }
}
