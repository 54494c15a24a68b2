/** Bitwise or and shifts of numbers, and when an or is a sum. */
module Bits {
  import opened Words

  function Or(a: nat, b: nat): nat
    decreases a + b
  {
    if a == 0 && b == 0 then 0
    else 2 * Or(a / 2, b / 2) + if a % 2 == 1 || b % 2 == 1 then 1 else 0
  }

  /** `a & ~b`. */
  function AndNot(a: nat, b: nat): (c: nat)
    ensures c <= a
  {
    if a == 0 then 0 else 2 * AndNot(a / 2, b / 2) + if a % 2 == 1 && b % 2 == 0 then 1 else 0
  }

  function Shr(a: nat, k: nat): nat {
    if k == 0 then a else Shr(a / 2, k - 1)
  }

  /** Bit `k` is set. */
  predicate Bit(a: nat, k: nat) {
    Shr(a, k) % 2 == 1
  }

  lemma OrUnfolds(a: nat, b: nat)
    ensures Or(a, b) == 2 * Or(a / 2, b / 2) + if a % 2 == 1 || b % 2 == 1 then 1 else 0
  {
  }

  lemma AndNotUnfolds(a: nat, b: nat)
    ensures AndNot(a, b) == 2 * AndNot(a / 2, b / 2) + if a % 2 == 1 && b % 2 == 0 then 1 else 0
  {
  }

  lemma Unfolded(a: nat, k: nat)
    ensures k == 0 ==> Shr(a, k) == a && Pow(2, k) == 1
    ensures k > 0 ==> Shr(a, k) == Shr(a / 2, k - 1) && Pow(2, k) == Pow(2, k - 1) * 2
  {
  }

  lemma {:induction false} OrZero(a: nat)
    ensures Or(a, 0) == a
  {
    if a > 0 {
      OrZero(a / 2);
    }
  }

  lemma {:induction false} OrCommutes(a: nat, b: nat)
    ensures Or(a, b) == Or(b, a)
    decreases a + b
  {
    if a > 0 || b > 0 {
      OrCommutes(a / 2, b / 2);
    }
  }

  lemma {:induction false} OrBound(a: nat, b: nat, n: nat)
    requires a < Pow(2, n) && b < Pow(2, n)
    ensures Or(a, b) < Pow(2, n)
  {
    if n > 0 {
      OrBound(a / 2, b / 2, n - 1);
    }
  }

  lemma {:induction false} ShrSum(a: nat, j: nat, k: nat)
    ensures Shr(Shr(a, j), k) == Shr(a, j + k)
  {
    if j > 0 {
      ShrSum(a / 2, j - 1, k);
    }
  }

  lemma {:induction false} OrShr(a: nat, b: nat, k: nat)
    ensures Shr(Or(a, b), k) == Or(Shr(a, k), Shr(b, k))
  {
    hide Or;
    OrUnfolds(a, b);
    if k > 0 {
      OrShr(a / 2, b / 2, k - 1);
    }
  }

  /** What lies above bit `k`, and below it. */
  lemma {:induction false} ShrIs(a: nat, k: nat, high: nat)
    ensures Shr(a, k) == high <==> high * Pow(2, k) <= a < high * Pow(2, k) + Pow(2, k)
  {
    if k > 0 {
      ShrIs(a / 2, k - 1, high);
      MulAssociates(high, Pow(2, k - 1), 2);
    }
  }

  /** Two numbers whose bits do not overlap: their or is their sum. */
  lemma {:induction false} OrIsSum(high: nat, low: nat, k: nat)
    requires low < Pow(2, k)
    ensures Or(high * Pow(2, k), low) == high * Pow(2, k) + low
  {
    hide Or, Pow;
    Unfolded(low, k);
    OrUnfolds(high * Pow(2, k), low);
    if k == 0 {
      OrZero(high);
    } else {
      MulAssociates(high, Pow(2, k - 1), 2);
      OrIsSum(high, low / 2, k - 1);
    }
  }

  /** The or, bit `k` and up and below it. */
  lemma {:induction false} OrSplits(a: nat, b: nat, c: nat, k: nat)
    requires b < Pow(2, k)
    ensures Shr(b + c * Pow(2, k), k) == c
    ensures Shr(a, k) == Or(Shr(a, k), c) ==> Or(a, b + c * Pow(2, k)) == Or(a, b)
  {
    hide Or, Shr, Pow;
    Unfolded(a, k);
    Unfolded(b + c * Pow(2, k), k);
    OrUnfolds(a, b);
    OrUnfolds(a, b + c * Pow(2, k));
    if k == 0 {
      OrZero(a);
    } else {
      MulAssociates(c, Pow(2, k - 1), 2);
      var d := b / 2 + c * Pow(2, k - 1);
      assert (b + c * Pow(2, k)) / 2 == d && (b + c * Pow(2, k)) % 2 == b % 2;
      OrSplits(a / 2, b / 2, c, k - 1);
    }
  }

  /** Or-ing `k` ones fills the low `k` bits. */
  lemma {:induction false} OrOnes(a: nat, k: nat)
    ensures Pow(2, k) > 0 && Or(a, Pow(2, k) - 1) == Shr(a, k) * Pow(2, k) + (Pow(2, k) - 1)
  {
    hide Or, Shr, Pow;
    PowPositive(2, k);
    Unfolded(a, k);
    if k == 0 {
      OrZero(a);
    } else {
      PowPositive(2, k - 1);
      OrOnes(a / 2, k - 1);
      OneMoreOne(a, Shr(a, k), Pow(2, k - 1));
    }
  }

  lemma OneMoreOne(a: nat, high: nat, p: nat)
    requires p > 0 && Or(a / 2, p - 1) == high * p + (p - 1)
    ensures Or(a, p * 2 - 1) == high * (p * 2) + (p * 2 - 1)
  {
    hide Or;
    OnesHalved(p);
    OrUnfolds(a, p * 2 - 1);
    MulAssociates(high, p, 2);
  }

  lemma OnesHalved(p: nat)
    requires p > 0
    ensures (p * 2 - 1) / 2 == p - 1 && (p * 2 - 1) % 2 == 1
  {
  }

  lemma {:induction false} ShrOnes(j: nat, k: nat)
    requires k <= j
    ensures Pow(2, j) > 0 && Pow(2, k) > 0 && Shr(Pow(2, j) - 1, j - k) == Pow(2, k) - 1
  {
    PowPositive(2, j);
    PowPositive(2, k);
    if k < j {
      PowPositive(2, j - 1);
      OnesHalved(Pow(2, j - 1));
      ShrOnes(j - 1, k);
    }
  }

  lemma {:induction false} ShrBound(w: nat, j: nat, n: nat)
    requires w < Pow(2, n) && j <= n
    ensures Shr(w, j) < Pow(2, n - j)
  {
    if j > 0 {
      ShrBound(w / 2, j - 1, n - 1);
    }
  }

  // ----- single bits

  lemma BitOfOr(a: nat, b: nat, k: nat)
    ensures Bit(Or(a, b), k) <==> Bit(a, k) || Bit(b, k)
  {
    hide Or, Shr;
    OrShr(a, b, k);
    OrUnfolds(Shr(a, k), Shr(b, k));
  }

  lemma {:induction false} BitOfAndNot(a: nat, b: nat, k: nat)
    ensures Bit(AndNot(a, b), k) <==> Bit(a, k) && !Bit(b, k)
  {
    hide AndNot, Shr;
    AndNotUnfolds(a, b);
    Unfolded(AndNot(a, b), k);
    Unfolded(a, k);
    Unfolded(b, k);
    if k > 0 {
      BitOfAndNot(a / 2, b / 2, k - 1);
    }
  }

  lemma {:induction false} BitOfPower(j: nat, k: nat)
    ensures Bit(Pow(2, j), k) <==> j == k
  {
    if j > 0 && k > 0 {
      BitOfPower(j - 1, k - 1);
    } else if k > 0 {
      ShrIs(1, k, 0);
      PowMonotone(2, 1, k);
    }
  }

  /** Setting a bit that was clear and clearing it again. */
  lemma {:induction false} BitUndone(a: nat, j: nat)
    requires !Bit(a, j)
    ensures AndNot(Or(a, Pow(2, j)), Pow(2, j)) == a
  {
    hide Or, AndNot;
    Unfolded(a, j);
    if j > 0 {
      BitUndone(a / 2, j - 1);
      SetAndClear(a, Pow(2, j - 1));
    } else {
      OrUnfolds(a, 1);
      AndNotUnfolds(Or(a, 1), 1);
      OrZero(a / 2);
      AndNotZero(a / 2);
    }
  }

  lemma SetAndClear(a: nat, p: nat)
    requires AndNot(Or(a / 2, p), p) == a / 2
    ensures AndNot(Or(a, p * 2), p * 2) == a
  {
    hide Or, AndNot;
    OrUnfolds(a, p * 2);
    AndNotUnfolds(Or(a, p * 2), p * 2);
  }

  lemma {:induction false} AndNotZero(a: nat)
    ensures AndNot(a, 0) == a
  {
    if a > 0 {
      AndNotZero(a / 2);
    }
  }
}
