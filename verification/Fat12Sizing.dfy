/** The cluster size of a FAT12 volume: rounding up to a power of two by bit smearing, and the bound on the
    number of clusters. */
module Fat12Sizing {
  import opened Words
  import opened Bits

  const MAX_CLUSTERS := 4084

  // ----- smearing

  /** An `n`-bit number whose upper `j` bits are ones. */
  predicate TopOnes(w: nat, n: nat, j: nat) {
    w < Pow(2, n) && if j <= n then Shr(w, n - j) == Pow(2, j) - 1 else w == Pow(2, n) - 1
  }

  /** One smearing step doubles the ones. */
  lemma SmearStep(w: nat, n: nat, j: nat)
    requires j > 0 && TopOnes(w, n, j)
    ensures TopOnes(Or(w, Shr(w, j)), n, 2 * j)
  {
    hide Or, Shr, Pow;
    if 2 * j <= n {
      SmearPart(w, n, j);
    } else if j <= n {
      SmearRest(w, n, j);
    } else {
      PowMonotone(2, n, j);
      ShrIs(w, j, 0);
      OrZero(w);
    }
  }

  /** `j` ones in front of `k` ones. */
  lemma OnesJoin(high: nat, j: nat, k: nat)
    requires high == Pow(2, j) - 1
    ensures high * Pow(2, k) + (Pow(2, k) - 1) == Pow(2, j + k) - 1
  {
    hide Pow;
    PowSum(2, j, k);
    OnesTimes(high, Pow(2, k));
  }

  lemma OnesTimes(a: int, q: int)
    ensures a * q + q == (a + 1) * q
  {
  }

  lemma SmearPart(w: nat, n: nat, j: nat)
    requires 0 < 2 * j <= n && TopOnes(w, n, j)
    ensures TopOnes(Or(w, Shr(w, j)), n, 2 * j)
  {
    hide Or, Shr, Pow;
    var s := n - 2 * j;
    OrShr(w, Shr(w, j), s);
    ShrSum(w, j, s);
    ShrSum(w, s, j);
    OrOnes(Shr(w, s), j);
    OnesJoin(Shr(w, s + j), j, j);
    ShrBound(w, j, n);
    PowMonotone(2, n - j, n);
    OrBound(w, Shr(w, j), n);
  }

  lemma SmearRest(w: nat, n: nat, j: nat)
    requires j <= n < 2 * j && TopOnes(w, n, j)
    ensures Or(w, Shr(w, j)) == Pow(2, n) - 1
  {
    hide Or, Shr, Pow;
    var k := n - j;
    ShrSum(w, k, j - k);
    ShrOnes(j, k);
    OrOnes(w, k);
    OnesJoin(Shr(w, k), j, k);
  }

  /** The number of bits of `v`. */
  function BitCount(v: nat): (n: nat)
    ensures v < Pow(2, n) && (v > 0 ==> n > 0 && Pow(2, n - 1) <= v)
  {
    if v == 0 then 0
    else
      var m := BitCount(v / 2);
      assert Pow(2, m + 1) == Pow(2, m) * 2;
      assert m > 0 ==> Pow(2, m) == Pow(2, m - 1) * 2;
      m + 1
  }

  /** `r` is the least power of two that is not below `x`. */
  ghost predicate IsLeastPow2(r: int, x: int) {
    exists k: nat :: r == Pow(2, k) && x <= r && (k == 0 || Pow(2, k - 1) < x)
  }

  /** `x >> j` of an `int`, given and returned as its 32 bits: the sign bit is repeated. */
  function Sar(w: Word, j: nat): nat
    requires j <= 32
  {
    PowPositive(2, j);
    MulMonotone(0, Pow(2, j) - 1, Pow(2, 32 - j));
    if w < TWO31 then Shr(w, j) else Shr(w, j) + (Pow(2, j) - 1) * Pow(2, 32 - j)
  }

  /** The shifted number is the signed one divided by the power of two, rounded down. */
  lemma SarIsFloor(w: Word, j: nat)
    requires j <= 31
    ensures Sar(w, j) < 0x1_0000_0000
    ensures var q, p := Signed(Sar(w, j)), Pow(2, j); q * p <= Signed(w) < q * p + p
  {
    hide Shr, Pow, Sar;
    var s, p, half := Shr(w, j), Pow(2, j), Pow(2, 31 - j);
    PowPositive(2, j);
    ShrIs(w, j, s);
    SarIs(w, j);
    if w < TWO31 {
      MulMonotone(1, p, s);
    } else {
      assert Sar(w, j) == s + TWO32 - 2 * half;
      assert Signed(Sar(w, j)) == s - 2 * half;
    }
  }

  lemma SarIs(w: Word, j: nat)
    requires j <= 31
    ensures w < TWO31 ==> Sar(w, j) == Shr(w, j)
    ensures w >= TWO31 ==>
              var s, half := Shr(w, j), Pow(2, 31 - j);
              && half <= s < 2 * half <= TWO32
              && Sar(w, j) == s + TWO32 - 2 * half
              && (s - 2 * half) * Pow(2, j) == s * Pow(2, j) - TWO32
  {
    hide Shr, Pow;
    var s, p, half := Shr(w, j), Pow(2, j), Pow(2, 31 - j);
    if w >= TWO31 {
      TopPowers(j);
      ShrIs(w, j, s);
      ShrBound(w, j, 32);
      TopHalf(s, half, p);
      TopPlaces(s, half, p);
    }
  }

  lemma TopPowers(j: nat)
    requires j <= 31
    ensures Pow(2, j) * Pow(2, 31 - j) == TWO31 && Pow(2, 32 - j) == 2 * Pow(2, 31 - j)
    ensures 1 <= Pow(2, 31 - j) <= TWO31 && Pow(2, 32) == TWO32
  {
    hide Pow;
    SmallPowers();
    PowPositive(2, 31 - j);
    PowSum(2, j, 31 - j);
    PowSum(2, 31 - j, 1);
    PowMonotone(2, 31 - j, 31);
  }

  lemma TopHalf(s: nat, half: nat, p: nat)
    requires p * half < s * p + p
    ensures half <= s
  {
    if s < half {
      MulMonotone(s + 1, half, p);
    }
  }

  lemma TopPlaces(s: nat, half: nat, p: nat)
    requires p * half == TWO31 && 1 <= half <= s < 2 * half
    ensures (p - 1) * (2 * half) == TWO32 - 2 * half
    ensures (s - 2 * half) * p == s * p - TWO32
  {
  }

  /** The bits of the partially smeared argument: those of a positive number have `n` bits, those of a
      negative one all 32. */
  ghost predicate Smeared(w: nat, n: nat, j: nat) {
    (n <= 30 || n == 32) && if w == 0 then n == 0 else TopOnes(w, n, j)
  }

  /** Once the sign is among the ones, repeating it changes nothing. */
  lemma SignRepeated(w: Word, n: nat, j: nat)
    requires 0 < j <= 32 && Smeared(w, n, j)
    ensures Or(w, Sar(w, j)) == Or(w, Shr(w, j))
  {
    hide Or, Shr, Pow;
    if w >= TWO31 {
      SmallPowers();
      PowMonotone(2, if n <= 30 then n else 30, 30);
      assert n == 32;
      var ones, k := Shr(w, 32 - j), 32 - j;
      ShrBound(w, j, 32);
      ShrIs(ones, j, 0);
      OrOnes(ones, j);
      OrSplits(w, Shr(w, j), ones, k);
    }
  }

  /** `x |= x >> j`. */
  method Smear(x: Word, j: nat, ghost n: nat) returns (w: Word)
    requires 0 < j <= 32 && Smeared(x, n, j)
    ensures w == Or(x, Sar(x, j)) && Smeared(w, n, 2 * j)
  {
    hide Or, Shr, Pow, Sar, TopOnes;
    SignRepeated(x, n, j);
    if x > 0 {
      SmearStep(x, n, j);
      SmearedWord(Or(x, Shr(x, j)), n, 2 * j);
    } else {
      NothingSmeared(j);
    }
    w := Or(x, Sar(x, j));
  }

  lemma NothingSmeared(j: nat)
    ensures Shr(0, j) == 0 && Or(0, 0) == 0
  {
    ShrIs(0, j, 0);
    PowPositive(2, j);
  }

  lemma SmearedWord(w: nat, n: nat, j: nat)
    requires TopOnes(w, n, j) && j > 0 && (n <= 30 || n == 32)
    ensures w < TWO32 && Smeared(w, n, j)
  {
    hide Or, Shr, Pow;
    SmallPowers();
    PowMonotone(2, n, 32);
    if w == 0 {
      if j <= n {
        NothingSmeared(n - j);
        PowMonotone(2, 1, j);
        assert false;
      } else if n > 0 {
        PowMonotone(2, 1, n);
        assert false;
      }
    }
  }

  /** `alignpow2`, as far as the C arithmetic does not overflow. It gives zero for a negative argument. */
  method AlignPow2(x: int) returns (r: int)
    requires -TWO31 < x <= 0x4000_0000
    ensures if x < 0 then r == 0 else IsLeastPow2(r, x)
  {
    hide Or, Shr, BitCount, Pow, TopOnes, IsLeastPow2, Sar, Smeared;
    if x == 0 {
      PowerZero();
      return 1;
    }
    var w: Word := Wrap(x - 1);
    ghost var n := if x > 0 then BitCount(x - 1) else 32;
    SmearBegins(x);
    w := Smear(w, 1, n);
    w := Smear(w, 2, n);
    w := Smear(w, 4, n);
    w := Smear(w, 8, n);
    w := Smear(w, 16, n);
    SmearEnds(x, w);
    return Signed(w) + 1;
  }

  lemma PowerZero()
    ensures IsLeastPow2(1, 0)
  {
    assert Pow(2, 0) == 1;
  }

  lemma SmearBegins(x: int)
    requires -TWO31 < x <= 0x4000_0000 && x != 0
    ensures Smeared(Wrap(x - 1), if x > 0 then BitCount(x - 1) else 32, 1)
  {
    hide Or, Shr, Pow, BitCount;
    SmallPowers();
    var w: Word := Wrap(x - 1);
    if x < 0 {
      assert w == x - 1 + TWO32;
      ShrIs(w, 31, 1);
    } else {
      assert w == x - 1;
      BitCountBelow(x - 1);
      if w > 0 {
        ShrIs(w, BitCount(w) - 1, 1);
        PowSum(2, BitCount(w) - 1, 1);
      }
    }
  }

  lemma SmearEnds(x: int, w: Word)
    requires -TWO31 < x <= 0x4000_0000 && x != 0
    requires Smeared(w, if x > 0 then BitCount(x - 1) else 32, 32)
    ensures if x < 0 then Signed(w) == -1 else IsLeastPow2(Signed(w) + 1, x)
  {
    hide Or, Pow, BitCount;
    SmallPowers();
    if x > 0 {
      var n := BitCount(x - 1);
      BitCountBelow(x - 1);
      PowMonotone(2, n, 30);
      assert w + 1 == Pow(2, n);
    }
  }

  lemma BitCountBelow(v: nat)
    requires v < 0x4000_0000
    ensures BitCount(v) <= 30 && (v == 0 ==> BitCount(v) == 0)
  {
    hide Pow;
    SmallPowers();
    if BitCount(v) > 30 {
      PowMonotone(2, 30, BitCount(v) - 1);
    }
  }

  lemma SmallPowers()
    ensures Pow(2, 0) == 1 && Pow(2, 1) == 2 && Pow(2, 2) == 4 && Pow(2, 3) == 8 && Pow(2, 4) == 16
    ensures Pow(2, 5) == 32 && Pow(2, 6) == 64 && Pow(2, 7) == 128
    ensures Pow(2, 30) == 0x4000_0000 && Pow(2, 31) == TWO31 && Pow(2, 32) == TWO32
  {
    hide Pow;
    FirstPowers();
    PowSum(2, 5, 5);
    PowSum(2, 10, 10);
    PowSum(2, 20, 10);
    PowSum(2, 30, 1);
    PowSum(2, 31, 1);
  }

  lemma FirstPowers()
    ensures Pow(2, 0) == 1 && Pow(2, 1) == 2 && Pow(2, 2) == 4 && Pow(2, 3) == 8 && Pow(2, 4) == 16
    ensures Pow(2, 5) == 32 && Pow(2, 6) == 64 && Pow(2, 7) == 128
  {
  }

  // ----- the volume

  /** Division of the C language, which truncates. */
  function TruncDiv(a: int, b: int): int
    requires b > 0
  {
    if a >= 0 then a / b else -((-a) / b)
  }

  function CDiv(a: int, b: int): int
    requires b > 0
  {
    var q := TruncDiv(a, b);
    if a - q * b != 0 then q + 1 else q
  }

  /** The size guard of `FAT12_format`, which passes the unsigned size as an `int`. */
  predicate Accepted(size: Word) {
    CDiv(Signed(size), 128) <= MAX_CLUSTERS
  }

  /** What the guard accepts: the sizes it is meant for, and those that it sees as negative. */
  lemma AcceptedSizes(size: Word)
    ensures Accepted(size) <==> size <= 522_752 || size >= TWO31
  {
  }

  lemma CDivIsCeiling(a: nat, b: nat)
    requires b > 0
    ensures a <= CDiv(a, b) * b < a + b
  {
    Division(a, b);
    assert (a / b + 1) * b == (a / b) * b + b;
  }

  /** The sectors per cluster that `FAT12_format` chooses. For the sizes from 2^31 on that the guard lets
      through it is zero, by which the code then divides, except for a few at the very end. */
  method ClusterSize(size: Word) returns (code: int, sectors: int)
    ensures code == if 522_752 < size < TWO31 then 2 else 0
    ensures size <= 522_752 ==> IsLeastPow2(sectors, CDiv(size, MAX_CLUSTERS))
    ensures size >= TWO31 ==>
              sectors == if size <= TWO32 - 2 * MAX_CLUSTERS || size == TWO32 - MAX_CLUSTERS then 0 else 1
  {
    hide IsLeastPow2, Pow;
    AcceptedSizes(size);
    sectors := 0;
    if !Accepted(size) {
      return 2, sectors;
    }
    if size < TWO31 {
      CDivIsCeiling(size, MAX_CLUSTERS);
    } else {
      NegativeQuotient(size);
    }
    sectors := AlignPow2(CDiv(Signed(size), MAX_CLUSTERS));
    if size >= TWO31 && CDiv(Signed(size), MAX_CLUSTERS) >= 0 {
      LeastOfSmall(sectors, CDiv(Signed(size), MAX_CLUSTERS));
    }
    code := 0;
  }

  lemma LeastOfSmall(r: int, x: int)
    requires IsLeastPow2(r, x) && x <= 1
    ensures r == 1
  {
    var k: nat :| r == Pow(2, k) && x <= r && (k == 0 || Pow(2, k - 1) < x);
    PowPositive(2, if k > 0 then k - 1 else 0);
  }

  lemma NegativeQuotient(size: Word)
    requires size >= TWO31
    ensures -TWO31 < CDiv(Signed(size), MAX_CLUSTERS) <= 1
    ensures CDiv(Signed(size), MAX_CLUSTERS) < 0 <==> size <= TWO32 - 2 * MAX_CLUSTERS || size == TWO32 - MAX_CLUSTERS
  {
    var a := TWO32 - size;
    Division(a, MAX_CLUSTERS);
    assert Signed(size) == -a;
  }

  /** The choice is a power of two that fits its byte, gives at most 4084 clusters, and is the least that
      does. */
  lemma ClusterCountBounded(size: Word, sectors: int)
    requires size <= 522_752 && IsLeastPow2(sectors, CDiv(size, MAX_CLUSTERS))
    ensures sectors in {1, 2, 4, 8, 16, 32, 64, 128}
    ensures size / sectors <= MAX_CLUSTERS
    ensures sectors > 1 ==> CDiv(size, sectors / 2) > MAX_CLUSTERS
  {
    var k: nat :| sectors == Pow(2, k) && CDiv(size, MAX_CLUSTERS) <= sectors
                  && (k == 0 || Pow(2, k - 1) < CDiv(size, MAX_CLUSTERS));
    SmallPowers();
    CDivIsCeiling(size, MAX_CLUSTERS);
    assert CDiv(size, MAX_CLUSTERS) <= 128;
    if k > 7 {
      PowMonotone(2, 7, k - 1);
    }
    AtMost(size, sectors);
    if k > 0 {
      var half := Pow(2, k - 1);
      assert sectors / 2 == half;
      CDivIsCeiling(size, half);
      if CDiv(size, half) <= MAX_CLUSTERS {
        MulMonotone(CDiv(size, half), MAX_CLUSTERS, half);
      }
    }
  }

  lemma AtMost(size: nat, sectors: nat)
    requires sectors > 0 && size <= sectors * MAX_CLUSTERS
    ensures size / sectors <= MAX_CLUSTERS
  {
    Division(size, sectors);
    if size / sectors > MAX_CLUSTERS {
      MulMonotone(MAX_CLUSTERS + 1, size / sectors, sectors);
    }
  }
}
