/** The escape-time computation every Mandelbrot variant shares: complex arithmetic, the orbit of
    `z -> z*z + c` from `z = 0`, the escape test `|z|^2 >= 4`, and the mapping of pixel indices
    onto the complex plane. */
module MandelPoint {

  /** `std::complex<float>` on exact reals. */
  datatype Complex = Complex(re: real, im: real)

  const ZERO: Complex := Complex(0.0, 0.0)

  /** `complex_mul`: `(ac - bd, ad + bc)`. */
  function Mul(c0: Complex, c1: Complex): Complex {
    Complex(c0.re * c1.re - c0.im * c1.im, c0.re * c1.im + c0.im * c1.re)
  }

  /** `complex_add`: componentwise sum. */
  function Add(c0: Complex, c1: Complex): Complex {
    Complex(c0.re + c1.re, c0.im + c1.im)
  }

  /** The squared modulus `r*r + im*im` the escape test compares with 4. */
  function NormSq(z: Complex): (n: real)
    ensures n >= 0.0
  {
    z.re * z.re + z.im * z.im
  }

  /** Multiplication is commutative and multiplies squared moduli: `|c0 c1|^2 = |c0|^2 |c1|^2`. */
  lemma MulLaws(c0: Complex, c1: Complex)
    ensures Mul(c0, c1) == Mul(c1, c0)
    ensures NormSq(Mul(c0, c1)) == NormSq(c0) * NormSq(c1)
  {
    var a, b, c, d := c0.re, c0.im, c1.re, c1.im;
    calc {
      NormSq(Mul(c0, c1));
      (a * c - b * d) * (a * c - b * d) + (a * d + b * c) * (a * d + b * c);
      a * a * c * c + b * b * d * d + a * a * d * d + b * b * c * c;
      (a * a + b * b) * (c * c + d * d);
    }
  }

  /** Addition is commutative, has ZERO as its unit, and adding the negation gives ZERO. */
  lemma AddLaws(c0: Complex, c1: Complex)
    ensures Add(c0, c1) == Add(c1, c0)
    ensures Add(c0, ZERO) == c0
    ensures Add(c0, Complex(-c0.re, -c0.im)) == ZERO
  {
  }

  /** The `k`-th iterate of `z -> z*z + c` from `z = 0`. */
  function Iterate(c: Complex, k: nat): Complex {
    if k == 0 then ZERO else Add(Mul(Iterate(c, k - 1), Iterate(c, k - 1)), c)
  }

  /** The `k`-th iterate has left the disc of radius 2 (the loop's break test). */
  predicate Escapes(c: Complex, k: nat) {
    NormSq(Iterate(c, k)) >= 4.0
  }

  /** The first `k` from `i` on, below `maxIteration`, at which the orbit escapes, or `maxIteration`
      (at least `i`) when there is none. */
  function EscapeFrom(c: Complex, i: nat, maxIteration: int): nat
    decreases maxIteration - i
  {
    if i >= maxIteration || Escapes(c, i) then i else EscapeFrom(c, i + 1, maxIteration)
  }

  /** The count `point` returns: the number of completed iterations before the first escape,
      capped at `maxIteration`. */
  function EscapeTime(c: Complex, maxIteration: int): nat {
    EscapeFrom(c, 0, maxIteration)
  }

  lemma {:induction false} EscapeFromSpec(c: Complex, i: nat, maxIteration: int)
    ensures var n := EscapeFrom(c, i, maxIteration);
      i <= n && (i < maxIteration ==> n <= maxIteration) &&
      (forall k :: i <= k < n ==> !Escapes(c, k)) &&
      (n < maxIteration ==> Escapes(c, n))
    decreases maxIteration - i
  {
    if !(i >= maxIteration || Escapes(c, i)) {
      EscapeFromSpec(c, i + 1, maxIteration);
    }
  }

  /** The escape count is in `[0, maxIteration]` (and 0 when `maxIteration <= 0`); no iterate before
      it escapes, and unless it is the cap, the iterate at the count does. */
  lemma EscapeTimeSpec(c: Complex, maxIteration: int)
    ensures var n := EscapeTime(c, maxIteration);
      (maxIteration <= 0 ==> n == 0) && (maxIteration > 0 ==> n <= maxIteration) &&
      (forall k :: 0 <= k < n ==> !Escapes(c, k)) &&
      (n < maxIteration ==> Escapes(c, n))
  {
    EscapeFromSpec(c, 0, maxIteration);
  }

  /** The count reaches the cap exactly when no iterate below the cap escapes: the points the
      samples print as inside the set. */
  lemma InSetIffBounded(c: Complex, maxIteration: int)
    requires maxIteration > 0
    ensures EscapeTime(c, maxIteration) == maxIteration <==> forall k :: 0 <= k < maxIteration ==> !Escapes(c, k)
  {
    EscapeTimeSpec(c, maxIteration);
  }

  /** The orbit of the origin stays at the origin. */
  lemma {:induction false} OriginFixed(k: nat)
    ensures Iterate(ZERO, k) == ZERO
  {
    if k > 0 {
      OriginFixed(k - 1);
    }
  }

  /** The origin is inside the set: its count is the cap. */
  lemma OriginInSet(maxIteration: int)
    requires maxIteration >= 0
    ensures EscapeTime(ZERO, maxIteration) == maxIteration
  {
    forall k: nat | k < maxIteration
      ensures !Escapes(ZERO, k)
    {
      OriginFixed(k);
    }
    if maxIteration > 0 {
      InSetIffBounded(ZERO, maxIteration);
    }
  }

  /** `point`: iterate `z = z*z + c` from 0 at most `maxIteration` times, leaving the loop as soon as
      `r*r + im*im >= 4`; returns the number of completed iterations. */
  method Point(c: Complex, maxIteration: int) returns (count: int)
    ensures count == EscapeTime(c, maxIteration)
  {
    count := 0;
    var z := ZERO;
    var i := 0;
    while i < maxIteration
      invariant 0 <= i && (maxIteration > 0 ==> i <= maxIteration)
      invariant count == i && z == Iterate(c, i)
      invariant EscapeFrom(c, i, maxIteration) == EscapeTime(c, maxIteration)
      decreases maxIteration - i
    {
      if NormSq(z) >= 4.0 {
        break;
      }
      z := Add(Mul(z, z), c);
      count := count + 1;
      i := i + 1;
    }
  }

  /** The pixel pitch `2/n`: `n` steps span the width 2 of both axes. */
  function Step(n: int): real
    requires n > 0
  {
    2.0 / n as real
  }

  /** `scaleRow`: row `i` of `rows` onto the real axis, from -1.5 (inclusive) towards 0.5. */
  function ScaleRow(i: int, rows: int): real
    requires rows > 0
  {
    -1.5 + (i as real) * Step(rows)
  }

  /** `scaleCol`: column `j` of `cols` onto the imaginary axis, from -1 (inclusive) towards 1. */
  function ScaleCol(j: int, cols: int): real
    requires cols > 0
  {
    -1.0 + (j as real) * Step(cols)
  }

  /** Index `k` of `n` lands in `[0, 2)` pitches, and a larger index lands further on. */
  lemma StepRange(k: int, k': int, n: int, s: real)
    requires 0 <= k < n && s == 2.0 / n as real
    ensures 0.0 <= (k as real) * s < 2.0
    ensures k < k' ==> (k as real) * s < (k' as real) * s
  {
    assert (n as real) * s == 2.0;
    var d := (n - 1 - k) as real;
    assert d * s >= 0.0;
    assert (k as real) * s == 2.0 - s - d * s;
    assert (k' as real) * s - (k as real) * s == ((k' - k) as real) * s;
  }

  /** Every pixel row lands in `[-1.5, 0.5)`, and a later row lands strictly further along the
      real axis. */
  lemma ScaleRowRange(i: int, i': int, rows: int)
    requires 0 <= i < rows
    ensures -1.5 <= ScaleRow(i, rows) < 0.5
    ensures i < i' ==> ScaleRow(i, rows) < ScaleRow(i', rows)
  {
    StepRange(i, i', rows, Step(rows));
  }

  /** Every pixel column lands in `[-1, 1)`, and a later column lands strictly further along the
      imaginary axis. */
  lemma ScaleColRange(j: int, j': int, cols: int)
    requires 0 <= j < cols
    ensures -1.0 <= ScaleCol(j, cols) < 1.0
    ensures j < j' ==> ScaleCol(j, cols) < ScaleCol(j', cols)
  {
    StepRange(j, j', cols, Step(cols));
  }

  /** The count every variant stores for pixel `(i, j)` of a `rows` x `cols` image: the escape
      time of the point the pixel scales to. */
  function PixelCount(i: int, j: int, rows: int, cols: int, maxIteration: int): nat
    requires rows > 0 && cols > 0
  {
    EscapeTime(Complex(ScaleRow(i, rows), ScaleCol(j, cols)), maxIteration)
  }
}
