/** Multiplication, division and remainder of natural numbers. */
module Arith {

  lemma MulStep(q: nat, a: nat, w: nat)
    requires q < a
    ensures a * w >= q * w + w
  {
    assert a * w == (q + 1) * w + (a - q - 1) * w;
  }

  lemma DivModUnique(w: nat, q: nat, r: nat, n: nat)
    requires r < w && n == q * w + r
    ensures n / w == q && n % w == r
  {
    var q', r' := n / w, n % w;
    assert n == q' * w + r';
    if q' < q { MulStep(q', q, w); } else if q' > q { MulStep(q, q', w); }
  }

  lemma DivMod(n: nat, w: nat)
    requires w > 0
    ensures n == n / w * w + n % w && n % w < w
  {
  }

  /** Two-digit numbers in base n are ordered like their digits. */
  lemma Lexicographic(x: nat, i: nat, y: nat, j: nat, n: nat)
    requires i < n && j < n
    ensures x * n + i < y * n + j <==> x < y || (x == y && i < j)
  {
    if x < y { MulStep(x, y, n); } else if y < x { MulStep(y, x, n); }
  }

  lemma SameDigits(x: nat, i: nat, y: nat, j: nat, n: nat)
    requires i < n && j < n && x * n + i == y * n + j
    ensures x == y && i == j
  {
    Lexicographic(x, i, y, j, n);
    Lexicographic(y, j, x, i, n);
  }

  lemma MultipleOf(q: nat, w: nat)
    requires w > 0
    ensures q * w % w == 0 && q * w / w == q
  {
    DivModUnique(w, q, 0, q * w);
  }

  /** Rounding down to a multiple of w. */
  lemma AlignDown(n: nat, w: nat)
    requires w > 0
    ensures n % w <= n && n - n % w == n / w * w && (n - n % w) % w == 0 && n < n - n % w + w
  {
    DivMod(n, w);
    MultipleOf(n / w, w);
  }

  lemma DivBelow(x: nat, n: nat, m: nat)
    requires n > 0
    ensures x / n < m <==> x < m * n
  {
    assert x == x / n * n + x % n;
    Lexicographic(x / n, x % n, m, 0, n);
  }
}
