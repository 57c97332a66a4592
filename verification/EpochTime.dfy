/**
 * Timestamps arrive as seconds, milliseconds, microseconds or nanoseconds and are told apart by
 * how many decimal digits they have.
 */
module EpochTime {
  import opened U64

  function Power10(n: nat): (p: nat)
    ensures p > 0
  {
    if n == 0 then 1 else 10 * Power10(n - 1)
  }

  /** How many decimal digits x is written with. */
  function Digits(x: nat): (d: nat)
    ensures d > 0
  {
    if x < 10 then 1 else 1 + Digits(x / 10)
  }

  /** A number has d digits exactly when it lies between two consecutive powers of ten. */
  lemma {:induction false} DigitsBetweenPowers(x: nat, d: nat)
    requires x > 0 && d > 0
    ensures Digits(x) == d <==> Power10(d - 1) <= x < Power10(d)
  {
    if x < 10 {
      if d > 1 {
        assert Power10(d - 1) == 10 * Power10(d - 2);
      } else {
        assert Power10(1) == 10 * Power10(0);
      }
    } else if d == 1 {
      assert Power10(1) == 10 * Power10(0);
    } else {
      DigitsBetweenPowers(x / 10, d - 1);
      assert Power10(d) == 10 * Power10(d - 1);
      assert Power10(d - 1) == 10 * Power10(d - 2);
    }
  }

  lemma {:induction false} PowersMultiply(a: nat, b: nat)
    ensures Power10(a) * Power10(b) == Power10(a + b)
  {
    if a > 0 {
      PowersMultiply(a - 1, b);
      assert Power10(a) * Power10(b) == 10 * (Power10(a - 1) * Power10(b));
    }
  }

  lemma {:induction false} PowersGrow(a: nat, b: nat)
    requires a <= b
    ensures Power10(a) <= Power10(b)
  {
    if a < b {
      PowersGrow(a, b - 1);
    }
  }

  lemma LargestPowers()
    ensures Power10(18) == 1_000_000_000_000_000_000
    ensures Power10(19) == 10_000_000_000_000_000_000
    ensures Power10(20) == 100_000_000_000_000_000_000
  {
    assert Power10(6) == 1_000_000;
    PowersMultiply(6, 6);
    PowersMultiply(12, 6);
    PowersMultiply(18, 1);
    PowersMultiply(19, 1);
    assert Power10(1) == 10;
  }

  lemma U64HasTwentyDigits(x: u64)
    ensures 1 <= Digits(x) <= 20
    ensures Digits(x) == 20 <==> x >= Power10(19)
  {
    LargestPowers();
    if x > 0 {
      DigitsBetweenPowers(x, 20);
      if Digits(x) > 20 {
        DigitsBetweenPowers(x, Digits(x));
        PowersGrow(20, Digits(x) - 1);
      }
    }
  }

  /** The factor is a floating-point power truncated to an integer: 10^-1 becomes 0. */
  function Factor(digits: nat): nat {
    if digits <= 19 then Power10(19 - digits) else 0
  }

  /** The epoch as a nanosecond count, as the code computes it. */
  function NanoSeconds(epoch: u64): u64 {
    Mul(epoch, Of(Factor(Digits(epoch))))
  }

  method ToNanoSecs(epoch: u64) returns (ns: u64)
    ensures ns == NanoSeconds(epoch)
  {
    var rest := epoch;
    var count := 0;
    if rest == 0 {
      count := 1;
    } else {
      while rest != 0
        invariant 0 <= rest <= epoch
        invariant rest > 0 ==> Digits(epoch) == count + Digits(rest)
        invariant rest == 0 ==> Digits(epoch) == count
      {
        rest := rest / 10;
        count := count + 1;
      }
    }
    ns := Mul(epoch, Of(Factor(count)));
  }

  /** Scaling a d-digit number by 10^(19-d) gives a nineteen-digit number. */
  lemma ScaledBounds(x: nat, d: nat)
    requires 1 <= d <= 19 && Power10(d - 1) <= x < Power10(d)
    ensures Power10(18) <= x * Power10(19 - d) < Power10(19)
  {
    PowersMultiply(d - 1, 19 - d);
    PowersMultiply(d, 19 - d);
    ProductBetween(Power10(d - 1), x, Power10(d), Power10(19 - d));
  }

  lemma ProductBetween(low: int, x: int, high: int, k: nat)
    requires low <= x < high && k > 0
    ensures low * k <= x * k < high * k
  {
    ProductOrder(low, x, k);
    ProductOrder(x + 1, high, k);
    assert (x + 1) * k == x * k + k;
  }

  lemma ProductOrder(a: int, b: int, k: nat)
    requires a <= b
    ensures a * k <= b * k
  {
    var gap := b - a;
    assert gap * k >= 0;
    assert b * k == (a + gap) * k == a * k + gap * k;
  }

  /**
   * Below 10^19 nothing wraps, and every epoch but zero is scaled to exactly nineteen digits; from
   * 10^19 on the result is zero.
   */
  lemma ScaledToNineteenDigits(epoch: u64)
    ensures epoch < Power10(19) ==> Digits(epoch) <= 19 && NanoSeconds(epoch) == epoch * Power10(19 - Digits(epoch))
    ensures 0 < epoch < Power10(19) ==> Power10(18) <= NanoSeconds(epoch) < Power10(19)
    ensures epoch >= Power10(19) || epoch == 0 ==> NanoSeconds(epoch) == 0
  {
    U64HasTwentyDigits(epoch);
    if epoch == 0 {
      ProductWithZero(Factor(1));
    } else if epoch < Power10(19) {
      DigitsBetweenPowers(epoch, Digits(epoch));
      ScaledExactly(epoch, Digits(epoch));
    } else {
      ProductWithZero(epoch);
    }
  }

  lemma ScaledExactly(epoch: u64, d: nat)
    requires 1 <= d <= 19 && Power10(d - 1) <= epoch < Power10(d)
    ensures Mul(epoch, Of(Power10(19 - d))) == epoch * Power10(19 - d)
    ensures Power10(18) <= epoch * Power10(19 - d) < Power10(19)
  {
    LargestPowers();
    PowersGrow(19 - d, 18);
    ScaledBounds(epoch, d);
    SmallProduct(epoch, Power10(19 - d));
  }

  lemma SmallProduct(a: u64, b: nat)
    requires b < MODULUS && a * b < MODULUS
    ensures Mul(a, Of(b)) == a * b
  {
    assert Of(b) == b;
  }

  lemma ProductWithZero(a: int)
    ensures 0 * a == 0 == a * 0
    ensures Mul(0, Of(a)) == 0 && Of(0) == 0
  {
  }

  /** Converting a converted timestamp changes nothing. */
  lemma ConvertingTwice(epoch: u64)
    ensures NanoSeconds(NanoSeconds(epoch)) == NanoSeconds(epoch)
  {
    ScaledToNineteenDigits(epoch);
    NineteenDigitsAreKept(NanoSeconds(epoch));
  }

  lemma NineteenDigitsAreKept(ns: u64)
    requires ns == 0 || Power10(18) <= ns < Power10(19)
    ensures NanoSeconds(ns) == ns
  {
    if ns == 0 {
      ScaledToNineteenDigits(ns);
    } else {
      DigitsBetweenPowers(ns, 19);
      assert Factor(19) == Power10(0) == 1 && Of(1) == 1;
      MulByOne(ns);
    }
  }

  lemma MulByOne(a: u64)
    ensures Mul(a, 1) == a
  {
  }

  /** Timestamps in one unit keep their order, and dividing the unit out again gives the timestamp back. */
  lemma OrderKeptInOneUnit(x: u64, y: u64)
    requires Digits(x) == Digits(y) <= 19
    ensures x <= y <==> NanoSeconds(x) <= NanoSeconds(y)
    ensures NanoSeconds(x) / Power10(19 - Digits(x)) == x
    ensures NanoSeconds(y) - NanoSeconds(x) == (y - x) * Power10(19 - Digits(x))
  {
    U64HasTwentyDigits(x);
    U64HasTwentyDigits(y);
    ScaledToNineteenDigits(x);
    ScaledToNineteenDigits(y);
    ProductDifference(x, y, Power10(19 - Digits(x)));
    QuotientOfProduct(x, Power10(19 - Digits(x)));
  }

  lemma ProductDifference(x: nat, y: nat, k: nat)
    requires k > 0
    ensures y * k - x * k == (y - x) * k
    ensures x <= y <==> x * k <= y * k
  {
    if x <= y {
      ProductOrder(x, y, k);
    } else {
      ProductOrder(y + 1, x, k);
      assert (y + 1) * k == y * k + k;
    }
  }

  lemma QuotientOfProduct(x: nat, k: nat)
    requires k > 0
    ensures (x * k) / k == x
  {
    MultipleIsAligned(x, k);
    var q := (x * k) / k;
    assert x * k == k * q;
    assert (x - q) * k == 0;
  }

  /** Across units the order is lost: whichever two digit counts, some pair is converted the wrong way round. */
  lemma OrderLostAcrossUnits(d: nat, e: nat) returns (x: u64, y: u64)
    requires 1 <= d < e <= 19
    ensures Digits(x) == d && Digits(y) == e
    ensures x < y && NanoSeconds(x) > NanoSeconds(y)
  {
    x := LargestEpoch(d);
    y := SmallestEpoch(e);
    PowersGrow(d, e - 1);
    LargestPowers();
  }

  lemma LargestEpoch(d: nat) returns (x: u64)
    requires 1 <= d <= 18
    ensures x == Power10(d) - 1 && Digits(x) == d && NanoSeconds(x) >= 9 * Power10(18)
  {
    PowersGrow(d, 18);
    LargestPowers();
    x := Power10(d) - 1;
    PowersGrow(0, d - 1);
    assert Power10(d) == 10 * Power10(d - 1);
    DigitsBetweenPowers(x, d);
    ScaledToNineteenDigits(x);
    LargestOfItsLength(d);
  }

  lemma SmallestEpoch(e: nat) returns (y: u64)
    requires 1 <= e <= 19
    ensures y == Power10(e - 1) && Digits(y) == e && NanoSeconds(y) == Power10(18)
  {
    PowersGrow(e - 1, 18);
    LargestPowers();
    y := Power10(e - 1);
    assert Power10(e) == 10 * Power10(e - 1);
    DigitsBetweenPowers(y, e);
    ScaledToNineteenDigits(y);
    PowersMultiply(e - 1, 19 - e);
  }

  lemma LargestOfItsLength(d: nat)
    requires 1 <= d <= 18
    ensures (Power10(d) - 1) * Power10(19 - d) >= 9 * Power10(18)
  {
    PowersMultiply(d, 19 - d);
    PowersGrow(19 - d, 18);
    ProductLessOne(Power10(d), Power10(19 - d));
    LargestPowers();
  }

  lemma ProductLessOne(p: int, k: int)
    ensures (p - 1) * k == p * k - k
  {
  }
}
