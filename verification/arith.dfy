/** Facts about multiplication and truncating division by a variable, which
    the solver does not find unaided. */
module Arith {

  lemma MulMono(n: nat, a: int, b: int)
    requires a <= b
    ensures n * a <= n * b
  {
    assert n * b - n * a == n * (b - a);
  }

  /** Truncating division by a positive number is monotone. */
  lemma DivMono(x: nat, y: nat, n: nat)
    requires n > 0 && x <= y
    ensures x / n <= y / n
  {
    var qx, qy := x / n, y / n;
    assert n * qx <= x && y < n * qy + n;
    if qx > qy {
      MulMono(n, qy + 1, qx);
    }
  }

  lemma MulDivCancel(a: nat, n: nat)
    requires n > 0
    ensures (n * a) / n == a
  {
    var q := (n * a) / n;
    assert n * q <= n * a < n * q + n;
    if q < a { MulMono(n, q + 1, a); }
    if q > a { MulMono(n, a + 1, q); }
  }

  /** `a * b` as `a` repeated additions of `b`. Row-major positions are
      written with it so that the solver meets a product only through the
      lemmas below rather than through its nonlinear arithmetic. */
  function Mul(a: nat, b: nat): nat
  {
    if a == 0 then 0 else Mul(a - 1, b) + b
  }

  lemma {:induction false} MulIsProduct(a: nat, b: nat)
    ensures Mul(a, b) == a * b
  {
    if a > 0 {
      MulIsProduct(a - 1, b);
    }
  }

  /** Rows `0 .. y` of width `w` end no later than rows `0 .. h - 1` do. */
  lemma {:induction false} MulRowMono(y: nat, h: nat, w: nat)
    requires y <= h
    ensures Mul(y, w) <= Mul(h, w)
    decreases h - y
  {
    if y < h {
      MulRowMono(y + 1, h, w);
    }
  }

  /** A row-major position `Mul(y, w) + x` with `x < w, y < h` lies below
      `Mul(h, w)`. */
  lemma RowMajorBound(w: nat, h: nat, x: nat, y: nat)
    requires x < w && y < h
    ensures Mul(y, w) + x < Mul(h, w)
  {
    MulRowMono(y + 1, h, w);
  }

  /** Row-major positions are unique: `(x, y)` is recovered from
      `Mul(y, w) + x`. */
  lemma {:induction false} RowMajorInjective(w: nat, x: nat, y: nat, x': nat, y': nat)
    requires x < w && x' < w && Mul(y, w) + x == Mul(y', w) + x'
    ensures x == x' && y == y'
  {
    if y < y' {
      MulRowMono(y + 1, y', w);
    } else if y' < y {
      MulRowMono(y' + 1, y, w);
    }
  }

  /** Channel `c` of row-major pixel `(x, y)` lies inside a buffer of
      `Mul(h, w)` four-byte pixels. */
  lemma PixelByteBound(w: nat, h: nat, x: nat, y: nat, c: nat)
    requires x < w && y < h && c < 4
    ensures 4 * (Mul(y, w) + x) + c < 4 * Mul(h, w)
  {
    RowMajorBound(w, h, x, y);
  }
}
