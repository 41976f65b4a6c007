/** Integral powers of positive reals, and the size of a binary64 number. */
module Powers {
  function Pow(b: real, e: int): (p: real)
    requires b > 0.0
    ensures p > 0.0
    decreases if e < 0 then -e else e
  {
    if e == 0 then 1.0 else if e > 0 then b * Pow(b, e - 1) else Pow(b, e + 1) / b
  }

  lemma PowZero(b: real)
    requires b > 0.0
    ensures Pow(b, 0) == 1.0
  {
  }

  /** A product that proofs can keep folded. */
  function Times(x: real, y: real): real { x * y }

  lemma PowNext(b: real, e: int)
    requires b > 0.0
    ensures Pow(b, e + 1) == Times(b, Pow(b, e))
  {
  }

  lemma MulGrows(a: real, x: real, y: real)
    requires a >= 0.0 && x <= y
    ensures Times(a, x) <= Times(a, y)
  {
  }

  lemma TimesSwaps(b: real, x: real, y: real)
    ensures Times(b, Times(x, y)) == Times(x, Times(b, y))
  {
  }

  lemma TimesCancels(b: real, x: real, y: real)
    requires b > 0.0 && Times(b, x) == Times(b, y)
    ensures x == y
  {
    assert b * (x - y) == 0.0;
  }

  lemma {:induction false} PowAdd(b: real, d: int, e: int)
    requires b > 0.0
    ensures Pow(b, d + e) == Times(Pow(b, d), Pow(b, e))
    decreases if e < 0 then -e else e
  {
    PowZero(b);
    if e == 0 {
      assert d + e == d;
    } else {
      hide Pow, Times;
      var n := if e > 0 then e - 1 else e;
      PowNext(b, n);
      PowNext(b, d + n);
      TimesSwaps(b, Pow(b, d), Pow(b, n));
      assert d + n + 1 == d + (n + 1);
      if e > 0 {
        PowAdd(b, d, n);
      } else {
        PowAdd(b, d, n + 1);
        TimesCancels(b, Pow(b, d + n), Times(Pow(b, d), Pow(b, n)));
      }
    }
  }

  lemma {:induction false} PowGrows(b: real, d: int, e: int)
    requires b > 1.0 && d <= e
    ensures Pow(b, d) <= Pow(b, e)
    decreases e - d
  {
    if d < e {
      PowGrows(b, d, e - 1);
      PowNext(b, e - 1);
      MulGrows(Pow(b, e - 1), 1.0, b);
    }
  }

  lemma TwoTo93()
    ensures Pow(2.0, 93) == 9903520314283042199192993792.0
  {
    var two := 2.0;
    assert Pow(two, 0) == 1.0;
    assert Pow(two, 1) == 2.0;
    hide Pow;
    PowAdd(two, 1, 1);
    PowAdd(two, 2, 1);
    PowAdd(two, 3, 3);
    PowAdd(two, 6, 6);
    PowAdd(two, 12, 12);
    PowAdd(two, 24, 7);
    assert Pow(two, 7) == 128.0 by { PowAdd(two, 6, 1); }
    PowAdd(two, 31, 31);
    PowAdd(two, 62, 31);
  }

  lemma TenTo28()
    ensures Pow(10.0, 28) == 10000000000000000000000000000.0
  {
    var ten := 10.0;
    assert Pow(ten, 0) == 1.0;
    assert Pow(ten, 1) == 10.0;
    hide Pow;
    PowAdd(ten, 1, 1);
    PowAdd(ten, 2, 2);
    PowAdd(ten, 4, 3);
    assert Pow(ten, 3) == 1000.0 by { PowAdd(ten, 2, 1); }
    PowAdd(ten, 7, 7);
    PowAdd(ten, 14, 14);
  }

  lemma {:induction false} BlockPowers(k: nat)
    ensures Pow(2.0, 93 * k) <= Pow(10.0, 28 * k)
  {
    if k > 0 {
      BlockPowers(k - 1);
      TwoTo93();
      TenTo28();
      PowAdd(2.0, 93 * (k - 1), 93);
      PowAdd(10.0, 28 * (k - 1), 28);
      MulGrows(Pow(2.0, 93), Pow(2.0, 93 * (k - 1)), Pow(10.0, 28 * (k - 1)));
      MulGrows(Pow(10.0, 28 * (k - 1)), Pow(2.0, 93), Pow(10.0, 28));
    }
  }

  // No binary64 number has more than 309 decimal digits before the point.
  lemma DoubleRange()
    ensures Pow(2.0, 1024) < Pow(10.0, 309)
  {
    BlockPowers(11);
    PowNext(2.0, 1023);
    PowNext(10.0, 308);
  }

  function Abs(x: real): real {
    if x < 0.0 then -x else x
  }

  /** A finite binary64 number: a 53-bit integer times a power of two in range. */
  ghost predicate IsDouble(d: real) {
    exists m: int, e: int :: IsScaled(d, m, e)
  }

  ghost predicate IsScaled(d: real, m: int, e: int) {
    Abs(m as real) < Pow(2.0, 53) && -1074 <= e <= 971 && d == m as real * Pow(2.0, e)
  }

  /** `v` is a finite binary64 number, and no other is nearer to `x`. */
  ghost predicate Nearest(x: real, v: real) {
    IsDouble(v) && forall d :: IsDouble(d) ==> Abs(v - x) <= Abs(d - x)
  }

  lemma ZeroIsDouble()
    ensures IsDouble(0.0)
  {
    assert IsScaled(0.0, 0, 0);
  }

  // Zero is rounded to itself.
  lemma ZeroIsExact(v: real)
    requires Nearest(0.0, v)
    ensures v == 0.0
  {
    ZeroIsDouble();
    assert Abs(v - 0.0) <= Abs(0.0 - 0.0);
  }

  lemma DoubleBound(v: real)
    requires IsDouble(v)
    ensures Abs(v) < Pow(10.0, 309)
  {
    hide Pow;
    var m, e :| IsScaled(v, m, e);
    PowGrows(2.0, e, 971);
    PowAdd(2.0, 53, 971);
    DoubleRange();
    AbsProduct(m as real, Pow(2.0, e));
    Bounded(Abs(m as real), Pow(2.0, e), Pow(2.0, 53), Pow(2.0, 971), Abs(v));
  }

  lemma Bounded(a: real, p: real, b: real, q: real, ap: real)
    requires 0.0 <= a < b && 0.0 < p <= q && ap == a * p
    ensures ap < Times(b, q)
  {
    MulGrows(a, p, q);
    assert (b - a) * q > 0.0;
  }

  lemma AbsProduct(x: real, p: real)
    requires p > 0.0
    ensures Abs(x * p) == Abs(x) * p
  {
    if x < 0.0 {
      assert (-x) * p == -(x * p);
      assert (-x) * p > 0.0;
    } else {
      MulGrows(p, 0.0, x);
    }
  }
}
