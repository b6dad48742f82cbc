/**
 Bitwise and/or on the bit patterns of Go integers, with the facts that turn masks and
 shifted fields into arithmetic. `x << k` is x * Pow2(k) and `x >> k` is x / Pow2(k).
 */
module Bits {
  import opened Division

  function Pow2(k: nat): (p: nat)
    ensures p >= 1
  {
    if k == 0 then 1 else 2 * Pow2(k - 1)
  }

  /** The 64-bit pattern of an int. */
  function Pattern(v: int): nat { v % 0x1_0000_0000_0000_0000 }

  function BitAnd(a: nat, b: nat): nat {
    if a == 0 || b == 0 then 0 else (if a % 2 == 1 && b % 2 == 1 then 1 else 0) + 2 * BitAnd(a / 2, b / 2)
  }

  function BitOr(a: nat, b: nat): nat {
    if a == 0 then b else if b == 0 then a
    else (if a % 2 == 1 || b % 2 == 1 then 1 else 0) + 2 * BitOr(a / 2, b / 2)
  }

  /** Fields that do not overlap: `or` is a sum. */
  lemma {:induction false} OrDisjoint(lo: nat, hi: nat, k: nat)
    requires lo < Pow2(k)
    ensures BitOr(lo, hi * Pow2(k)) == lo + hi * Pow2(k)
  {
    if k > 0 {
      Doubled(hi, Pow2(k - 1));
      OrDisjoint(lo / 2, hi, k - 1);
    }
  }

  lemma Doubled(h: int, p: int)
    ensures h * (2 * p) == 2 * (h * p)
  {}

  lemma AndStep(a: nat, b: nat)
    ensures BitAnd(a, b) == (if a % 2 == 1 && b % 2 == 1 then 1 else 0) + 2 * BitAnd(a / 2, b / 2)
  {}

  /** A mask of k ones keeps the low k bits. */
  lemma {:induction false} AndMask(x: nat, k: nat)
    ensures BitAnd(x, Pow2(k) - 1) == x % Pow2(k)
  {
    if k > 0 {
      var p := Pow2(k - 1);
      assert Pow2(k) == 2 * p;
      AndMask(x / 2, k - 1);
      AndStep(x, 2 * p - 1);
      hide BitAnd, Pow2;
      OddHalf(p);
      HalfMod(x, p);
    }
  }

  lemma OddHalf(p: int)
    ensures (2 * p - 1) % 2 == 1 && (2 * p - 1) / 2 == p - 1
  {}

  lemma HalfMod(x: nat, p: nat)
    requires p > 0
    ensures x % (2 * p) == x % 2 + 2 * (x / 2 % p)
  {
    var q, r := x / 2 / p, x / 2 % p;
    assert x / 2 == p * q + r;
    Doubled(q, p);
    DivisionIs(x, 2 * p, q, x % 2 + 2 * r);
  }

  /** A mask whose lowest bits are clear looks at the bits above them. */
  lemma AndAbove1(x: nat, m: nat)
    ensures BitAnd(x, 2 * m) == 2 * BitAnd(x / 2, m)
  {
    AndStep(x, 2 * m);
    hide BitAnd;
    assert 2 * m % 2 == 0 && 2 * m / 2 == m;
  }

  lemma AndAbove3(x: nat, m: nat)
    ensures BitAnd(x, 8 * m) == 8 * BitAnd(x / 8, m)
  {
    hide BitAnd;
    AndAbove1(x, 4 * m);
    AndAbove1(x / 2, 2 * m);
    AndAbove1(x / 4, m);
    assert x / 2 / 2 == x / 4 && x / 4 / 2 == x / 8;
  }

  lemma AndAbove5(x: nat, m: nat)
    ensures BitAnd(x, 32 * m) == 32 * BitAnd(x / 32, m)
  {
    hide BitAnd;
    AndAbove3(x, 4 * m);
    AndAbove1(x / 8, 2 * m);
    AndAbove1(x / 16, m);
    assert x / 8 / 2 == x / 16 && x / 16 / 2 == x / 32;
  }

  /** A mask whose lowest bit is set keeps that bit. */
  lemma AndKeep1(x: nat, m: nat)
    ensures BitAnd(x, 2 * m + 1) == x % 2 + 2 * BitAnd(x / 2, m)
  {
    AndStep(x, 2 * m + 1);
    hide BitAnd;
    assert (2 * m + 1) % 2 == 1 && (2 * m + 1) / 2 == m;
  }

  lemma AndKeep3(x: nat, m: nat)
    ensures BitAnd(x, 8 * m + 7) == x % 8 + 8 * BitAnd(x / 8, m)
  {
    hide BitAnd;
    AndKeep1(x, 4 * m + 3);
    AndKeep1(x / 2, 2 * m + 1);
    AndKeep1(x / 4, m);
    assert x / 2 / 2 == x / 4 && x / 4 / 2 == x / 8;
  }

  /** The low seven bits are kept, the eighth only if the mask has it. */
  lemma AndSeven(x: nat, h: nat)
    requires h < 2
    ensures BitAnd(x, 128 * h + 127) == x % 128 + 128 * (x / 128 % 2 * h)
  {
    hide BitAnd;
    AndKeep3(x, 16 * h + 15);
    AndKeep3(x / 8, 2 * h + 1);
    AndKeep1(x / 64, h);
    AndOneBit(x / 128, h);
    DivDiv(x, 8, 8);
    DivDiv(x, 64, 2);
    LowSeven(x);
  }

  /** The low seven bits, three, three and one at a time. */
  lemma LowSeven(x: nat)
    ensures x % 128 == x % 8 + 8 * (x / 8 % 8) + 64 * (x / 64 % 2)
  {
    DivDiv(x, 8, 8);
    DivDiv(x, 64, 2);
    DivisionIs(x, 128, x / 128, x % 8 + 8 * (x / 8 % 8) + 64 * (x / 64 % 2));
  }

  lemma AndOneBit(x: nat, h: nat)
    requires h < 2
    ensures BitAnd(x, h) == x % 2 * h
  {
    AndStep(x, h);
    AndZero(x / 2);
  }

  lemma AndZero(x: nat)
    ensures BitAnd(x, 0) == 0
  {}

  lemma Powers()
    ensures Pow2(1) == 2 && Pow2(3) == 8 && Pow2(5) == 32 && Pow2(7) == 128 && Pow2(8) == 256
    ensures Pow2(15) == 0x8000 && Pow2(16) == 0x1_0000
  {
    assert Pow2(3) == 8;
    assert Pow2(6) == 64;
    assert Pow2(9) == 512;
    assert Pow2(12) == 4096;
    assert Pow2(15) == 0x8000;
  }
}
