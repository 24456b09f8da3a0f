/** The few non-linear facts the models need. */
module Arithmetic {

  lemma {:induction false} Commute(a: nat, b: nat)
    ensures a * b == b * a
  {
  }

  lemma {:induction false} Associate(a: nat, b: nat, c: nat)
    ensures a * b * c == a * (b * c)
  {
  }

  lemma {:induction false} OneMore(n: nat, a: nat)
    ensures (n + 1) * a == n * a + a
  {
  }

  function Quotient(a: nat, d: nat): nat
    requires 1 <= d
  {
    a / d
  }

  lemma {:induction false} TimesMonotone(a: int, b: int, d: nat)
    requires a <= b
    ensures a * d <= b * d
  {
    assert b * d - a * d == (b - a) * d;
  }

  lemma {:induction false} DivModUnique(x: nat, d: nat, q: nat, r: nat)
    requires 0 < d && r < d && x == q * d + r
    ensures x / d == q && x % d == r
  {
    assert x == (x / d) * d + x % d;
    if q < x / d {
      TimesMonotone(q + 1, x / d, d);
    } else if x / d < q {
      TimesMonotone(x / d + 1, q, d);
    }
  }

  lemma {:induction false} DivModParts(x: nat, d: nat)
    requires 0 < d
    ensures x == (x / d) * d + x % d && x % d < d
  {
  }

  /** Cell (r, c) of a grid with rows of length w, counted row by row. */
  lemma {:induction false} GridCell(r: nat, c: nat, rows: nat, w: nat)
    requires r < rows && c < w
    ensures r * w + c < rows * w
    ensures (r * w + c) / w == r && (r * w + c) % w == c
  {
    TimesMonotone(r + 1, rows, w);
    DivModUnique(r * w + c, w, r, c);
  }

  /** Every number below rows * w is such a cell. */
  lemma {:induction false} GridIndex(x: nat, rows: nat, w: nat)
    requires x < rows * w
    ensures 0 < w && x / w < rows && x % w < w && x == (x / w) * w + x % w
  {
    assert x == (x / w) * w + x % w;
    if rows <= x / w {
      TimesMonotone(rows, x / w, w);
    }
  }
}
