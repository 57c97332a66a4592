/** Unsigned 64-bit arithmetic as Go performs it, and the step grid that timestamps are aligned to. */
module U64 {
  const MODULUS: int := 0x1_0000_0000_0000_0000

  type u64 = x: int | 0 <= x < 0x1_0000_0000_0000_0000

  type i64 = x: int | -0x8000_0000_0000_0000 <= x < 0x8000_0000_0000_0000

  /** Conversion from a signed integer, as in `uint64(value.Timestamp)`. */
  function Of(x: int): u64 {
    x % MODULUS
  }

  function Add(a: u64, b: u64): u64 {
    (a + b) % MODULUS
  }

  function Sub(a: u64, b: u64): u64 {
    (a - b) % MODULUS
  }

  function Mul(a: u64, b: u64): u64 {
    (a * b) % MODULUS
  }

  /** A word and a multiple of 2^64 wrap to the word. */
  lemma WrapsTo(a: int, q: int, x: u64)
    requires a == x + 0x1_0000_0000_0000_0000 * q
    ensures Of(a) == x
  {
    var p, y := a / MODULUS, a % MODULUS;
    assert a == y + 0x1_0000_0000_0000_0000 * p;
    assert 0x1_0000_0000_0000_0000 * (q - p) == y - x;
    assert q - p == 0;
  }

  lemma Unwrapped(a: int) returns (q: int)
    ensures a == Of(a) + 0x1_0000_0000_0000_0000 * q
  {
    q := a / MODULUS;
  }

  lemma WrappedDifference(a: int, b: int)
    ensures Sub(Of(a), Of(b)) == Of(a - b)
  {
    var p := Unwrapped(a);
    var q := Unwrapped(b);
    var d := Unwrapped(Of(a) - Of(b));
    WrapsTo(a - b, d + p - q, Of(Of(a) - Of(b)));
  }

  lemma WrappedDouble(a: int)
    ensures Mul(Of(a), 2) == Of(2 * a)
  {
    var p := Unwrapped(a);
    var d := Unwrapped(Of(a) * 2);
    WrapsTo(2 * a, d + 2 * p, Of(Of(a) * 2));
  }

  lemma WrappedZero(x: u64, a: int)
    ensures Of(x - a) == 0 <==> Of(a) == x
  {
    if Of(x - a) == 0 {
      var q := Unwrapped(x - a);
      WrapsTo(a, -q, x);
    }
    if Of(a) == x {
      var q := Unwrapped(a);
      WrapsTo(x - a, -q, 0);
    }
  }

  /** Taking off what fits does not wrap. */
  lemma TakenOff(a: u64, b: nat)
    requires b <= a
    ensures Of(b) == b && Sub(a, b) == a - b
  {
    WrapsTo(b, 0, b);
    WrapsTo(a - b, 0, a - b);
  }

  /** Taking off more leaves the complement. */
  lemma TakenOffTooMuch(a: u64, b: u64)
    requires a < b
    ensures Sub(a, b) == a - b + MODULUS > a
  {
    WrapsTo(a - b, -1, a - b + MODULUS);
  }

  function Min(a: int, b: int): int {
    if a < b then a else b
  }

  function Max(a: int, b: int): int {
    if a > b then a else b
  }

  predicate Aligned(x: int, step: int)
    requires step > 0
  {
    x % step == 0
  }

  /** The last grid point at or before x. */
  function Floor(x: int, step: int): (r: int)
    requires x >= 0 && step > 0
    ensures 0 <= r <= x < r + step
    ensures Aligned(r, step)
  {
    FloorIsAligned(x, step);
    x - x % step
  }

  /** The first grid point at or after x. */
  function Ceil(x: int, step: int): (r: int)
    requires x >= 0 && step > 0
    ensures r - step < x <= r
    ensures Aligned(r, step)
  {
    if x % step == 0 then x else NextIsAligned(Floor(x, step), step); Floor(x, step) + step
  }

  lemma FloorIsAligned(x: int, step: int)
    requires step > 0
    ensures (x - x % step) % step == 0
  {
    assert x == step * (x / step) + x % step;
    MultipleIsAligned(x / step, step);
    assert step * (x / step) == (x / step) * step;
  }

  lemma MultipleIsAligned(k: int, step: int)
    requires step > 0
    ensures (k * step) % step == 0
  {
    var q, r := (k * step) / step, (k * step) % step;
    assert (k - q) * step == r;
    assert k - q >= 1 ==> (k - q) * step >= step;
    assert k - q <= -1 ==> (k - q) * step <= -step;
  }

  lemma NextIsAligned(x: int, step: int)
    requires step > 0 && Aligned(x, step)
    ensures Aligned(x + step, step)
  {
    var k := x / step;
    assert x == step * k;
    assert x + step == (k + 1) * step by {
      assert (k + 1) * step == k * step + step;
    }
    MultipleIsAligned(k + 1, step);
  }

  /** Two distinct grid points are at least one step apart. */
  lemma GridGap(a: int, b: int, step: int)
    requires step > 0 && Aligned(a, step) && Aligned(b, step) && a < b
    ensures a + step <= b
  {
    var i, j := a / step, b / step;
    assert a == step * i && b == step * j;
    assert j <= i ==> step * j <= step * i;
    assert j >= i + 1;
    assert step * j >= step * (i + 1) == step * i + step;
  }

  /** The two ways the code rounds up, and its way of rounding down, meet the grid functions. */
  lemma RoundingForms(x: int, step: int)
    requires x >= 0 && step > 0
    ensures (x / step) * step == Floor(x, step)
    ensures (x / step + 1) * step == Floor(x, step) + step
    ensures x % step != 0 ==> Ceil(x, step) == Floor(x, step) + step
    ensures x % step == 0 ==> Ceil(x, step) == Floor(x, step) == x
  {
    assert x == step * (x / step) + x % step;
    assert (x / step) * step == step * (x / step);
    assert (x / step + 1) * step == (x / step) * step + step;
  }

  /** `((x / step) + 1) * step` in 64 bits. */
  function NextMultiple(x: u64, step: u64): u64
    requires step > 0
  {
    QuotientBound(x, step);
    Mul(Add(x / step, 1), step)
  }

  /** `(x / step) * step` in 64 bits. */
  function PreviousMultiple(x: u64, step: u64): u64
    requires step > 0
  {
    QuotientBound(x, step);
    Mul(x / step, step)
  }

  lemma MultipleForms(x: u64, step: u64)
    requires step > 0
    ensures x + step < MODULUS ==> NextMultiple(x, step) == Floor(x, step) + step
    ensures PreviousMultiple(x, step) == Floor(x, step)
  {
    RoundingForms(x, step);
    QuotientBound(x, step);
    if x + step < MODULUS {
      assert Add(x / step, 1) == x / step + 1;
      assert Mul(x / step + 1, step) == (x / step + 1) * step;
    }
    assert Mul(x / step, step) == (x / step) * step;
  }

  lemma QuotientBound(x: int, step: int)
    requires x >= 0 && step > 0
    ensures 0 <= x / step <= x
  {
    var q := x / step;
    assert x == step * q + x % step;
    ProductBounds(step, q);
  }

  lemma ProductBounds(step: int, q: int)
    requires step > 0
    ensures q < 0 ==> step * q <= -step
    ensures q >= 0 ==> step * q >= q
  {
    if q < 0 {
      assert step * (-1 - q) >= 0;
      assert step * (-1 - q) == -step - step * q;
    } else {
      assert (step - 1) * q >= 0;
      assert step * q == (step - 1) * q + q;
    }
  }
}
