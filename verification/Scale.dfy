/**
 Powers of ten over the reals, with negative exponents, so that the value of a
 decimal number can be written down exactly.
 */
module Scale {
  import opened Text

  function Scale10(e: int): (r: real)
    ensures r > 0.0
    decreases if e < 0 then -e else e
  {
    if e == 0 then 1.0
    else if e > 0 then 10.0 * Scale10(e - 1)
    else Scale10(e + 1) / 10.0
  }

  lemma ScaleStep(e: int)
    ensures Scale10(e + 1) == 10.0 * Scale10(e)
  {}

  ghost predicate AddLaw(a: int, b: int) {
    Scale10(a + b) == Scale10(a) * Scale10(b)
  }

  lemma ScaleAdd(a: int, b: int)
    ensures Scale10(a + b) == Scale10(a) * Scale10(b)
  {
    hide Scale10;
    AddLawHolds(a, b);
  }

  lemma {:induction false} AddLawHolds(a: int, b: int)
    ensures AddLaw(a, b)
    decreases if b < 0 then -b else b
  {
    if b == 0 {
    } else {
      hide AddLaw;
      if b > 0 {
        AddLawHolds(a, b - 1);
        AddLawStep(a, b - 1);
      } else {
        AddLawHolds(a, b + 1);
        AddLawStep(a, b);
      }
    }
  }

  /** The addition law holds at b exactly when it holds at b + 1. */
  lemma AddLawStep(a: int, b: int)
    ensures AddLaw(a, b) <==> AddLaw(a, b + 1)
  {
    hide Scale10;
    ScaleStep(b);
    ScaleStep(a + b);
    assert a + (b + 1) == (a + b) + 1;
    TenfoldProduct(Scale10(a), Scale10(b), Scale10(b + 1), Scale10(a + b), Scale10(a + (b + 1)));
  }

  lemma TenfoldProduct(x: real, y: real, y10: real, z: real, z10: real)
    requires y10 == 10.0 * y && z10 == 10.0 * z
    ensures z == x * y <==> z10 == x * y10
  {
    TenfoldRegroup(x, y);
  }

  lemma TenfoldRegroup(x: real, y: real)
    ensures 10.0 * (x * y) == x * (10.0 * y)
  {}

  lemma {:induction false} ScaleNat(n: nat)
    ensures Scale10(n) == Pow10(n) as real
  {
    if n > 0 {
      ScaleNat(n - 1);
    }
  }

  lemma {:induction false} ScaleMonotone(a: int, b: int)
    requires a <= b
    ensures Scale10(a) <= Scale10(b)
    decreases b - a
  {
    if a < b {
      ScaleMonotone(a, b - 1);
      ScaleStep(b - 1);
    }
  }

  lemma MulLess(x: real, y: real, k: real)
    requires k > 0.0
    ensures x < y <==> x * k < y * k
    ensures x == y <==> x * k == y * k
  {
    if x < y {
      assert (y - x) * k > 0.0;
    } else if y < x {
      assert (x - y) * k > 0.0;
    }
  }
}
