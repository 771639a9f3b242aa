/** Products, quotients and multiples. */
module Arithmetic {
  function Max(a: nat, b: nat): nat { if a >= b then a else b }

  function Min(a: nat, b: nat): nat { if a <= b then a else b }

  lemma MulMonotone(a: int, b: int, s: nat)
    requires a <= b
    ensures a * s <= b * s
  {
    assert (b - a) * s >= 0;
  }

  lemma QuotientOrder(a: nat, b: nat, s: nat)
    requires s > 0 && a * s <= b * s
    ensures a <= b
  {
  }

  lemma DivModUnique(x: nat, s: nat, q: nat, r: nat)
    requires r < s && x == q * s + r
    ensures x / s == q && x % s == r
  {
    var a, b := x / s, x % s;
    assert x == a * s + b && 0 <= b < s;
    assert (a + 1) * s == a * s + s && (q + 1) * s == q * s + s;
    if a < q {
      MulMonotone(a + 1, q, s);
    } else if q < a {
      MulMonotone(q + 1, a, s);
    }
  }

  lemma DivAtLeast(x: nat, k: nat, s: nat)
    requires s > 0 && k * s <= x
    ensures k <= x / s
  {
    var q := x / s;
    assert x < (q + 1) * s;
    QuotientOrder(k, q + 1, s);
  }

  lemma MultipleModZero(q: nat, s: nat)
    requires s > 0
    ensures (q * s) % s == 0
  {
    DivModUnique(q * s, s, q, 0);
  }

  lemma MultipleBelow(x: nat, s: nat)
    requires s > 0
    ensures (x - x % s) % s == 0
  {
    DivModUnique(x - x % s, s, x / s, 0);
  }

  lemma MultipleNext(s: nat, x: nat)
    requires s > 0 && x % s == 0
    ensures (x + s) % s == 0
  {
    assert x + s == (x / s + 1) * s + 0;
    DivModUnique(x + s, s, x / s + 1, 0);
  }

  lemma MultipleMinus(x: nat, y: nat, s: nat)
    requires s > 0 && x % s == 0 && y % s == 0 && y <= x
    ensures (x - y) % s == 0
  {
    var j, k := x / s, y / s;
    assert x == j * s && y == k * s;
    QuotientOrder(k, j, s);
    assert x - y == (j - k) * s + 0;
    DivModUnique(x - y, s, j - k, 0);
  }

  lemma NoMultipleBetween(x: nat, y: nat, s: nat)
    requires s > 0 && x % s == 0 && y % s == 0 && x < y
    ensures x + s <= y
  {
    MultipleMinus(y, x, s);
    AtLeastOne(y - x, s);
  }

  lemma AtLeastOne(x: nat, s: nat)
    requires s > 0 && 0 < x && x % s == 0
    ensures s <= x
  {
  }

  /* The only multiple of `s` after `base` and no further than one span is the end of the span. */
  lemma MultipleInSpan(s: nat, base: nat, x: nat)
    requires s > 0 && base % s == 0 && x % s == 0 && base < x <= base + s
    ensures x == base + s
  {
    NoMultipleBetween(base, x, s);
  }
}
