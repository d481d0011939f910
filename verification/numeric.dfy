/** Small numeric helpers shared by the samples: the absolute value of the result checks, the
    parity the ping-pong buffers follow, and the integer facts behind row-major indexing. */
module Numeric {

  /** `fabsf` on exact reals. */
  function Abs(r: real): (a: real)
    ensures a >= 0.0 && (a == r || a == -r)
  {
    if r < 0.0 then -r else r
  }

  /** Parity by counting: true after an odd number of flips. Loop invariants use it instead of
      `% 2`, which the solver handles poorly beside array reasoning. */
  predicate Odd(k: nat) {
    if k == 0 then false else !Odd(k - 1)
  }

  /** `Odd` agrees with the remainder by two. */
  lemma {:induction false} OddMod(k: nat)
    ensures Odd(k) <==> k % 2 == 1
  {
    if k > 0 {
      OddMod(k - 1);
    }
  }

  /** Row-major bound: a column index below `w` in a row below `h` stays below `w * h`. */
  lemma RowBound(x: int, y: int, w: nat, h: nat)
    requires 0 <= x < w && 0 <= y < h
    ensures 0 <= y * w + x < w * h
  {
    assert y * w <= (h - 1) * w;
  }

  /** Row-major indices are injective: equal flat indices with in-range columns mean equal rows
      and columns. */
  lemma RowMajorInjective(i: int, j: int, i': int, j': int, w: int)
    requires 0 <= j < w && 0 <= j' < w && i * w + j == i' * w + j'
    ensures i == i' && j == j'
  {
    DivModUnique(i * w + j, w, i, j);
    DivModUnique(i' * w + j', w, i', j');
  }

  /** Dividing a value below `d * h` by `d` gives a quotient below `h`. */
  lemma QuotientBelow(a: int, d: nat, h: nat)
    requires d > 0 && 0 <= a < d * h
    ensures 0 <= a / d < h
  {
    var q := a / d;
    assert q * d <= a;
    MulMono(h, q, d);
  }

  /** Multiplying by a positive factor preserves `<=`. */
  lemma MulMono(a: int, b: int, d: int)
    requires d > 0
    ensures a <= b ==> a * d <= b * d
  {
    if a <= b {
      assert b * d - a * d == (b - a) * d;
    }
  }

  /** Quotient and remainder by a positive divisor are unique. */
  lemma DivModUnique(a: int, d: int, q: int, r: int)
    requires d > 0 && 0 <= r < d && a == q * d + r
    ensures a / d == q && a % d == r
  {
    var q0, r0 := a / d, a % d;
    assert (q - q0) * d == r0 - r;
    MulMono(1, q - q0, d);
    MulMono(1, q0 - q, d);
  }

  /** Comparing a quotient by a positive divisor with a bound is comparing the dividend with the
      bound times the divisor. */
  lemma QuotientCompare(a: real, t: real, c: real)
    requires t > 0.0
    ensures a / t < c <==> a < c * t
    ensures a / t > c <==> a > c * t
  {
    var q := a / t;
    assert q * t == a;
    assert a - c * t == (q - c) * t;
    if q < c {
      assert (c - q) * t > 0.0;
    } else if q > c {
      assert (q - c) * t > 0.0;
    }
  }
}
