/** The few facts about Euclidean division that the models lean on. */
module Arith {

  lemma MulBounds(d: int, m: int)
    requires m > 0
    ensures d >= 1 ==> d * m >= m
    ensures d <= -1 ==> d * m <= -m
  {
  }

  lemma DivModUnique(x: int, m: int, q: int, r: int)
    requires m > 0 && x == q * m + r && 0 <= r < m
    ensures x / m == q && x % m == r
  {
    var d := q - x / m;
    MulBounds(d, m);
    assert d * m == q * m - x / m * m;
  }

  lemma ModStep(x: int, m: int)
    requires m > 0
    ensures (x % m + 1) % m == (x + 1) % m
  {
    var q, r := x / m, x % m;
    if r + 1 == m {
      assert x + 1 == (q + 1) * m + 0;
      DivModUnique(x + 1, m, q + 1, 0);
    } else {
      DivModUnique(x + 1, m, q, r + 1);
      DivModUnique(r + 1, m, 0, r + 1);
    }
  }

  lemma SameResidue(x: int, y: int, m: int)
    requires m > 0
    ensures x % m == y % m <==> (y - x) % m == 0
  {
    var a, b, c := x / m, y / m, (y - x) / m;
    if x % m == y % m {
      assert y - x == (b - a) * m + 0;
      DivModUnique(y - x, m, b - a, 0);
    }
    if (y - x) % m == 0 {
      assert y == (a + c) * m + x % m;
      DivModUnique(y, m, a + c, x % m);
    }
  }

  lemma AddMultiple(x: int, q: int, m: int)
    requires m > 0
    ensures (x + q * m) % m == x % m
  {
    assert x + q * m == (x / m + q) * m + x % m;
    DivModUnique(x + q * m, m, x / m + q, x % m);
  }

  /** Two counters around one cycle of length `p` meet. */
  lemma MeetIff(a: int, b: int, m: int, n: int, p: int)
    requires p > 0
    ensures (a + m) % p == (b + n) % p <==> ((b - a) % p + n - m) % p == 0
  {
    SameResidue(a + m, b + n, p);
    Apart(b - a, n - m, b + n - (a + m), p);
  }

  lemma Apart(x: int, d: int, y: int, p: int)
    requires p > 0 && y == x + d
    ensures y % p == (x % p + d) % p
  {
    assert y == (x % p + d) + x / p * p;
    AddMultiple(x % p + d, x / p, p);
  }
}
