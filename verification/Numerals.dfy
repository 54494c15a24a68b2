/** Numbers in text: the digits a number is printed with, and the parser that reads them back. */
module Numerals {
  import opened Words

  const MINUS: Byte := 0x2D
  const ZERO: Byte := 0x30

  // ----- division by the base

  function Quot(n: nat, base: nat): (q: nat)
    requires base >= 2
    ensures (q == 0 <==> n < base) && (n > 0 ==> q < n)
  {
    QuotFacts(n, base);
    n / base
  }

  lemma QuotFacts(n: nat, base: nat)
    requires base >= 2
    ensures (n / base == 0 <==> n < base) && (n > 0 ==> n / base < n)
  {
    Division(n, base);
    MulMonotone(2, base, n / base);
    if n < base {
      DivMod(n, base, 0, n);
    }
  }

  function Rem(n: nat, base: nat): (r: nat)
    requires base >= 2
    ensures r < base && (n < base ==> r == n)
  {
    Division(n, base);
    n % base
  }

  lemma QuotRem(n: nat, base: nat)
    requires base >= 2
    ensures n == Quot(n, base) * base + Rem(n, base)
  {
    Division(n, base);
  }

  lemma QuotRemUnique(q: nat, r: nat, base: nat)
    requires base >= 2 && r < base
    ensures Quot(q * base + r, base) == q && Rem(q * base + r, base) == r
  {
    DivMod(q * base + r, base, q, r);
  }

  /** `HEX_CHARS`. */
  function HexChar(d: nat): Byte
    requires d < 16
  {
    if d < 10 then 0x30 + d else 0x57 + d
  }

  /** The digits of all bases up to 16. */
  lemma HexChars(d: nat)
    requires d < 16
    ensures HexChar(d) == "0123456789abcdef"[d] as int
  {
  }

  function Digits(n: nat, base: nat): (s: seq<Byte>)
    requires 2 <= base <= 16
    ensures |s| > 0
  {
    (if n < base then [] else Digits(Quot(n, base), base)) + [HexChar(Rem(n, base))]
  }

  function IntText(n: int, base: nat): seq<Byte>
    requires 2 <= base <= 16
  {
    if n < 0 then [MINUS] + Digits(-n, base) else Digits(n, base)
  }

  // ----- reading back

  function DigitValue(ch: Byte): int {
    if ch < 0x40 then ch - 0x30 else ch - 0x57
  }

  predicate IsDigit(ch: Byte, base: nat) {
    (0x30 <= ch < 0x3A || 0x61 <= ch < 0x67) && 0 <= DigitValue(ch) < base
  }

  function ParseDigits(s: seq<Byte>, base: nat): int {
    if s == [] then 0 else ParseDigits(s[..|s| - 1], base) * base + DigitValue(s[|s| - 1])
  }

  function ParseInt(s: seq<Byte>, base: nat): int {
    if s != [] && s[0] == MINUS then -ParseDigits(s[1..], base) else ParseDigits(s, base)
  }

  /** Digits of the base, and no zero in front unless it is the only digit. */
  predicate Canonical(s: seq<Byte>, base: nat) {
    s != [] && (forall ch | ch in s :: IsDigit(ch, base)) && (s[0] == ZERO ==> |s| == 1)
  }

  lemma ParseSnoc(front: seq<Byte>, ch: Byte, base: nat)
    ensures ParseDigits(front + [ch], base) == ParseDigits(front, base) * base + DigitValue(ch)
  {
    assert (front + [ch])[..|front|] == front;
  }

  lemma DigitsSnoc(q: nat, r: nat, base: nat)
    requires 2 <= base <= 16 && r < base && q > 0
    ensures q * base + r >= base && Digits(q * base + r, base) == Digits(q, base) + [HexChar(r)]
  {
    hide Quot, Rem;
    MulMonotone(1, q, base);
    QuotRemUnique(q, r, base);
  }

  lemma HexCharIsDigit(r: nat, base: nat)
    requires r < base <= 16
    ensures IsDigit(HexChar(r), base) && DigitValue(HexChar(r)) == r && (HexChar(r) == ZERO <==> r == 0)
  {
  }

  /** Printing writes canonical digits that mean the number. */
  lemma {:induction false} DigitsParse(n: nat, base: nat)
    requires 2 <= base <= 16
    ensures ParseDigits(Digits(n, base), base) == n
    ensures Canonical(Digits(n, base), base)
    ensures Digits(n, base)[0] == ZERO ==> n == 0
  {
    hide Quot, Rem, HexChar, DigitValue, IsDigit, ParseDigits;
    var q, r := Quot(n, base), Rem(n, base);
    QuotRem(n, base);
    HexCharIsDigit(r, base);
    if n < base {
      ParseSnoc([], HexChar(r), base);
      ParseNothing(base);
    } else {
      DigitsParse(q, base);
      ParseSnoc(Digits(q, base), HexChar(r), base);
    }
  }

  lemma ParseNothing(base: nat)
    ensures ParseDigits([], base) * base == 0
  {
  }

  /** And there are no other canonical digits for it. */
  lemma {:induction false} ParseIsPrinted(s: seq<Byte>, base: nat)
    requires 2 <= base <= 16 && Canonical(s, base)
    ensures ParseDigits(s, base) >= 0 && Digits(ParseDigits(s, base), base) == s
    ensures s[0] != ZERO ==> ParseDigits(s, base) > 0
  {
    hide Quot, Rem, HexChar, ParseDigits, Digits;
    var front, last := s[..|s| - 1], s[|s| - 1];
    assert s == front + [last] && last in s;
    var r := DigitValue(last);
    ParseSnoc(front, last, base);
    DigitPrinted(last, base);
    if front == [] {
      ParseNothing(base);
    } else {
      assert forall ch | ch in front :: ch in s;
      ParseIsPrinted(front, base);
      DigitsSnoc(ParseDigits(front, base), r, base);
    }
  }

  lemma DigitPrinted(ch: Byte, base: nat)
    requires 2 <= base <= 16 && IsDigit(ch, base)
    ensures 0 <= DigitValue(ch) < base && HexChar(DigitValue(ch)) == ch && Digits(DigitValue(ch), base) == [ch]
    ensures ch != ZERO ==> DigitValue(ch) > 0
  {
  }

  lemma IntTextParses(n: int, base: nat)
    requires 2 <= base <= 16
    ensures ParseInt(IntText(n, base), base) == n
  {
    DigitsParse(if n < 0 then -n else n, base);
    if n >= 0 {
      assert Digits(n, base)[0] in Digits(n, base);
    } else {
      assert IntText(n, base)[1..] == Digits(-n, base);
    }
  }

  /** Some numbers as they are printed. */
  lemma PrintedNumbers()
    ensures Digits(255, 16) == Ascii("ff") && Digits(255, 8) == Ascii("377") && IntText(-1234, 10) == Ascii("-1234")
  {
    hide Quot, Rem, Digits;
    FirstDigit(15, 16);
    LastDigit(15, 15, 16);
    FirstDigit(3, 8);
    LastDigit(3, 7, 8);
    LastDigit(31, 7, 8);
    FirstDigit(1, 10);
    LastDigit(1, 2, 10);
    LastDigit(12, 3, 10);
    LastDigit(123, 4, 10);
  }

  lemma FirstDigit(d: nat, base: nat)
    requires d < base && 2 <= base <= 16
    ensures Digits(d, base) == [HexChar(d)]
  {
  }

  lemma LastDigit(q: nat, r: nat, base: nat)
    requires 2 <= base <= 16 && r < base && q > 0
    ensures Digits(q * base + r, base) == Digits(q, base) + [HexChar(r)]
  {
    DigitsSnoc(q, r, base);
  }

  // ----- the size of the buffer

  /** A number has at most `k` digits exactly if it is below the power `k` of the base. */
  lemma {:induction false} DigitCount(n: nat, base: nat, k: nat)
    requires 2 <= base <= 16 && k > 0
    ensures |Digits(n, base)| <= k <==> n < Pow(base, k)
  {
    hide Quot, Rem;
    PowPositive(base, k - 1);
    MulMonotone(1, Pow(base, k - 1), base);
    if n >= base {
      if k == 1 {
        assert Pow(base, 1) == Pow(base, 0) * base == base;
      } else {
        DigitCount(Quot(n, base), base, k - 1);
        QuotBound(n, base, Pow(base, k - 1));
      }
    }
  }

  lemma QuotBound(n: nat, base: nat, m: nat)
    requires base >= 2
    ensures Quot(n, base) < m <==> n < m * base
  {
    hide Quot, Rem;
    QuotRem(n, base);
    if Quot(n, base) < m {
      MulMonotone(Quot(n, base) + 1, m, base);
    } else {
      MulMonotone(m, Quot(n, base), base);
    }
  }

  /** The 32-byte buffer of `fprint_uint` holds every 64-bit number from base 4 on. In the bases 2 and 3, which
      its description also allows, it does so exactly up to 2^32 and 3^32. */
  lemma BufferSuffices(n: nat, base: nat)
    requires 2 <= base <= 16 && n < TWO64
    ensures |Digits(n, base)| <= 32 <==> base >= 4 || n < Pow(base, 32)
    ensures |Digits(n, base)| <= 32 <==> n < Pow(base, 32)
    ensures |Digits(TWO32, 2)| > 32
  {
    DigitCount(n, base, 32);
    DigitCount(TWO32, 2, 32);
    PowersOfTwo();
    if base >= 4 {
      PowBaseMonotone(4, base, 32);
    }
  }

  lemma PowersOfTwo()
    ensures Pow(4, 32) == TWO64 && Pow(2, 32) == TWO32
  {
    assert Pow(4, 4) == 0x100 && Pow(2, 4) == 0x10;
    PowSum(4, 4, 4);
    PowSum(4, 8, 8);
    PowSum(4, 16, 16);
    PowSum(2, 4, 4);
    PowSum(2, 8, 8);
    PowSum(2, 16, 16);
  }
}
