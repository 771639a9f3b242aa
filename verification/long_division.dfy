/** Division by shifting and subtracting for machines without a division instruction (`ullmoddiv` and
    `umoddiv` in server/src/gcc_lib.c). */
module LongDivision {
  import opened Arithmetic

  datatype QuotientRemainder = QuotientRemainder(div: nat, mod: nat)

  ghost predicate SingleBit(n: nat) {
    n == 1 || (n > 1 && n % 2 == 0 && SingleBit(n / 2))
  }

  /** The bit-wise or of a number and one single bit. */
  function OrBit(i: nat, bit: nat): nat
    requires bit > 0
  {
    if i / bit % 2 == 1 then i else i + bit
  }

  /* Above the bit nothing was set but multiples of twice the bit: the bit is free. */
  lemma OrIsPlus(i: nat, bit: nat, m: nat)
    requires bit > 0 && i == m * (2 * bit)
    ensures OrBit(i, bit) == i + bit
  {
    assert i == (2 * m) * bit;
    DivOfMultiple(2 * m, bit);
  }

  lemma DivOfMultiple(k: nat, n: nat)
    requires n > 0
    ensures k * n / n == k
  {
    DivModUnique(k * n, n, k, 0);
  }

  /** The common algorithm for a word whose highest bit is `top`, so that the bit is set in a number
      from `top` on: Euclidean division for every divisor
      but zero, and zeros for that. */
  method ModDiv(dividend: nat, divisor: nat, top: nat) returns (r: QuotientRemainder)
    requires dividend < 2 * top && divisor < 2 * top
    ensures divisor == 0 ==> r == QuotientRemainder(0, 0)
    ensures divisor != 0 ==> dividend == r.div * divisor + r.mod && r.mod < divisor
  {
    var div: nat, s: nat := dividend, divisor;
    if s == 0 {
      return QuotientRemainder(0, 0);
    }
    if s > div {
      return QuotientRemainder(0, div);
    }
    hide Times, OrBit, SingleBit;
    var tmp: nat := 1;
    StartDivision(divisor);
    while s < top && s < div
      invariant s == Times(divisor, tmp) && s < 2 * top && 0 < s && SingleBit(tmp)
      decreases 2 * top - s
    {
      DoubleBoth(divisor, tmp);
      s, tmp := 2 * s, 2 * tmp;
    }
    var i: nat := 0;
    ghost var m: nat := 0;
    StartQuotient(divisor, tmp);
    while true
      invariant s == Times(divisor, tmp) && 0 < s && SingleBit(tmp) && i == Times(m, 2 * tmp)
      invariant dividend == Times(i, divisor) + div && div < 2 * s
      decreases tmp
    {
      SetBit(i, m, tmp, divisor);
      if div >= s {
        div, i := div - s, OrBit(i, tmp);
        m := 2 * m + 1;
      } else {
        m := 2 * m;
      }
      HalfOf(divisor, tmp);
      if div == 0 {
        break;
      }
      if tmp / 2 == 0 {
        break;
      }
      tmp := tmp / 2;
      s := s / 2;
    }
    r := QuotientRemainder(i, div);
    assert Times(i, divisor) == i * divisor by { TimesIs(i, divisor); }
  }

  function Times(a: nat, b: nat): nat { a * b }

  lemma TimesIs(a: nat, b: nat)
    ensures Times(a, b) == a * b
  {
  }

  lemma StartDivision(divisor: nat)
    ensures Times(divisor, 1) == divisor && SingleBit(1)
  {
  }

  lemma StartQuotient(divisor: nat, tmp: nat)
    ensures Times(0, divisor) == 0 && Times(0, 2 * tmp) == 0
  {
  }

  lemma DoubleBoth(divisor: nat, tmp: nat)
    requires SingleBit(tmp)
    ensures Times(divisor, 2 * tmp) == 2 * Times(divisor, tmp) && SingleBit(2 * tmp)
  {
    SingleBitDoubles(tmp);
  }

  /* One round: the bit is free, and setting it accounts for what is subtracted. */
  lemma SetBit(i: nat, m: nat, tmp: nat, divisor: nat)
    requires SingleBit(tmp) && i == Times(m, 2 * tmp)
    ensures tmp > 0 && OrBit(i, tmp) == i + tmp && i + tmp == Times(2 * m + 1, tmp) && i == Times(2 * m, tmp)
    ensures Times(i + tmp, divisor) == Times(i, divisor) + Times(divisor, tmp)
  {
    OrIsPlus(i, tmp, m);
    hide OrBit;
    TimesSum(2 * m, 1, tmp);
    TimesSum(i, tmp, divisor);
    TimesDouble(m, tmp);
    hide Times, SingleBit;
  }

  lemma TimesSum(a: nat, b: nat, c: nat)
    ensures Times(a + b, c) == Times(a, c) + Times(b, c) && Times(b, c) == Times(c, b) && Times(1, c) == c
  {
  }

  lemma TimesDouble(a: nat, b: nat)
    ensures Times(a, 2 * b) == Times(2 * a, b)
  {
  }

  /* Halving both, or, at the last bit, the end. */
  lemma HalfOf(divisor: nat, tmp: nat)
    requires SingleBit(tmp)
    ensures tmp / 2 == 0 ==> Times(divisor, tmp) == divisor
    ensures tmp / 2 != 0 ==>
      SingleBit(tmp / 2) && tmp == 2 * (tmp / 2) && Times(divisor, tmp) == 2 * Times(divisor, tmp / 2)
    ensures 0 < divisor ==> divisor <= Times(divisor, tmp)
  {
    var h := tmp / 2;
    Factors(divisor, tmp, h);
    hide Times;
  }

  lemma Factors(a: nat, b: nat, h: nat)
    ensures b == 2 * h ==> Times(a, b) == 2 * Times(a, h)
    ensures b == 1 ==> Times(a, b) == a
    ensures 0 < b ==> a <= Times(a, b)
  {
    if b == 2 * h {
      TwiceFactor(a, h);
    }
    if 1 < b {
      MulMonotone(2, b, a);
    }
  }

  lemma TwiceFactor(a: nat, h: nat)
    ensures a * (2 * h) == 2 * (a * h)
  {
  }

  lemma {:induction false} SingleBitDoubles(n: nat)
    requires SingleBit(n)
    ensures SingleBit(2 * n)
  {
    assert 2 * n / 2 == n;
  }

  /** 64-bit division. */
  method Ullmoddiv(div: nat, s: nat) returns (r: QuotientRemainder)
    requires div < 0x1_0000_0000_0000_0000 && s < 0x1_0000_0000_0000_0000
    ensures if s == 0 then r == QuotientRemainder(0, 0) else r == QuotientRemainder(div / s, div % s)
  {
    r := ModDiv(div, s, 0x8000_0000_0000_0000);
    if s != 0 { DivModUnique(div, s, r.div, r.mod); }
  }

  /** 32-bit division. */
  method Umoddiv(div: nat, s: nat) returns (r: QuotientRemainder)
    requires div < 0x1_0000_0000 && s < 0x1_0000_0000
    ensures if s == 0 then r == QuotientRemainder(0, 0) else r == QuotientRemainder(div / s, div % s)
  {
    r := ModDiv(div, s, 0x8000_0000);
    if s != 0 { DivModUnique(div, s, r.div, r.mod); }
  }

}
