/**
 Byte order is numeric order: comparing two encoded decimals byte by byte
 (bytes.Compare) orders them exactly as the numbers they stand for. The proof
 goes through the base-100 fraction 0.p0 p1 p2 ... that the digit pairs spell.
 */
module DecimalOrder {
  import opened Bytes
  import opened Text
  import opened Scale
  import opened DecimalNumber
  import opened DecimalCodec

  /** Lexicographic order; a proper prefix comes first. */
  ghost predicate LexLess(a: seq<int>, b: seq<int>) {
    b != [] && (a == [] || a[0] < b[0] || (a[0] == b[0] && LexLess(a[1..], b[1..])))
  }

  // ---------- the fraction a list of pairs spells ----------

  ghost predicate IsPairs(p: seq<int>) {
    forall i :: 0 <= i < |p| ==> 0 <= p[i] < 100
  }

  ghost predicate NoTrailingZero(p: seq<int>) {
    p != [] ==> p[|p| - 1] != 0
  }

  ghost function Fraction(p: seq<int>): real {
    if p == [] then 0.0 else (p[0] as real + Fraction(p[1..])) / 100.0
  }

  lemma {:induction false} FractionBounds(p: seq<int>)
    requires IsPairs(p)
    ensures 0.0 <= Fraction(p) < 1.0
    ensures p != [] && NoTrailingZero(p) ==> Fraction(p) > 0.0
    ensures p != [] && p[0] > 0 ==> Fraction(p) >= 0.01
  {
    if p != [] {
      assert IsPairs(p[1..]);
      FractionBounds(p[1..]);
    }
  }

  /** Without trailing zeros, the order of the pairs is the order of the fractions. */
  lemma {:induction false} FractionOrder(p: seq<int>, q: seq<int>)
    requires IsPairs(p) && IsPairs(q) && NoTrailingZero(p) && NoTrailingZero(q)
    ensures LexLess(p, q) <==> Fraction(p) < Fraction(q)
    ensures p == q <==> Fraction(p) == Fraction(q)
  {
    FractionBounds(p);
    FractionBounds(q);
    if p != [] && q != [] {
      var p', q' := p[1..], q[1..];
      assert IsPairs(p') && IsPairs(q');
      FractionBounds(p');
      FractionBounds(q');
      FractionOrder(p', q');
      assert p == [p[0]] + p' && q == [q[0]] + q';
      assert p == q <==> p[0] == q[0] && p' == q';
    }
  }

  /** Adding one to every pair keeps the order of the bytes. */
  lemma {:induction false} PositiveBytesOrder(p: seq<nat>, q: seq<nat>)
    requires IsPairs(p) && IsPairs(q)
    ensures LexLess(PairBytes(1, p), PairBytes(1, q)) <==> LexLess(p, q)
  {
    if p != [] && q != [] {
      assert PairBytes(1, p)[1..] == PairBytes(1, p[1..]);
      assert PairBytes(1, q)[1..] == PairBytes(1, q[1..]);
      PositiveBytesOrder(p[1..], q[1..]);
    }
  }

  /** Complementing every pair reverses it, the terminator settling prefixes. */
  lemma {:induction false} NegativeBytesOrder(p: seq<nat>, q: seq<nat>)
    requires IsPairs(p) && IsPairs(q)
    ensures LexLess(PairBytes(-1, p) + [TERMINATOR], PairBytes(-1, q) + [TERMINATOR]) <==> LexLess(q, p)
  {
    var a, b := PairBytes(-1, p) + [TERMINATOR], PairBytes(-1, q) + [TERMINATOR];
    if p != [] && q != [] {
      assert a[1..] == PairBytes(-1, p[1..]) + [TERMINATOR];
      assert b[1..] == PairBytes(-1, q[1..]) + [TERMINATOR];
      NegativeBytesOrder(p[1..], q[1..]);
    } else {
      assert a[1..] == [] || b[1..] == [];
    }
  }

  // ---------- fractions and magnitudes ----------

  ghost predicate SpellsFraction(digits: string)
    requires AllDigits(digits) && |digits| % 2 == 0
  {
    NatVal(digits) as real == Fraction(Pairs(digits)) * Scale10(|digits|)
  }

  lemma {:induction false} DigitsAsFraction(digits: string)
    requires AllDigits(digits) && |digits| % 2 == 0
    ensures SpellsFraction(digits)
  {
    if digits == "" {
      assert Fraction(Pairs(digits)) == 0.0;
    } else {
      hide SpellsFraction;
      DigitsAsFraction(digits[2..]);
      OnePairMore(digits);
    }
  }

  lemma OnePairMore(digits: string)
    requires AllDigits(digits) && |digits| % 2 == 0 && digits != ""
    requires SpellsFraction(digits[2..])
    ensures SpellsFraction(digits)
  {
    hide NatVal, Pow10, Scale10, Fraction;
    var front, rest := digits[..2], digits[2..];
    assert digits == front + rest;
    PairsTail(digits);
    NatValAppend(front, rest);
    PairValue(front);
    assert PairAt(front, 0) == PairAt(digits, 0);
    ScaleNat(|rest|);
    ScaleStep(|rest|);
    ScaleStep(|rest| + 1);
    FractionHead(Pairs(digits));
    FractionCore(PairAt(digits, 0), NatVal(rest), Pow10(|rest|), Fraction(Pairs(rest)),
                 Scale10(|rest|), Scale10(|digits|));
  }

  lemma FractionHead(p: seq<int>)
    requires p != []
    ensures Fraction(p) == (p[0] as real + Fraction(p[1..])) / 100.0
  {}

  lemma PairValue(front: string)
    requires AllDigits(front) && |front| == 2
    ensures NatVal(front) == PairAt(front, 0)
  {
    var first := front[..1];
    assert first[..|first| - 1] == "";
    assert NatVal(first) == DigitVal(first[0]);
  }

  lemma FractionCore(p0: int, rest: nat, p: nat, f: real, scale: real, big: real)
    requires rest as real == f * scale && scale == p as real && big == 10.0 * (10.0 * scale)
    ensures (p0 * p + rest) as real == (p0 as real + f) / 100.0 * big
  {
    ProductAsReal(p0, p);
    var x := (p0 as real + f) / 100.0;
    assert x * big == (x * 100.0) * scale;
    SumTimes(p0 as real, f, scale);
  }

  /** A magnitude is its fraction times a power of one hundred. */
  lemma MagnitudeAsFraction(d: Decimal)
    requires WellFormed(d)
    ensures Magnitude(d.digits, d.weight) == Fraction(Pairs(d.digits)) * Scale10(2 * Exponent(d) + 2)
  {
    hide NatVal, Scale10, Fraction;
    DigitsAsFraction(d.digits);
    ScaleAdd(|d.digits|, d.weight);
    assert 2 * Exponent(d) + 2 == |d.digits| + d.weight;
    Associate(Fraction(Pairs(d.digits)), Scale10(|d.digits|), Scale10(d.weight));
  }

  lemma CanonicalPairs(d: Decimal)
    requires Canonical(d) && d.sign != 0
    ensures IsPairs(Pairs(d.digits)) && NoTrailingZero(Pairs(d.digits))
    ensures Pairs(d.digits) != [] && Pairs(d.digits)[0] > 0
  {
    var n := |d.digits|;
    var p := Pairs(d.digits);
    assert d.digits[..2] == [d.digits[0], d.digits[1]];
    assert d.digits[n - 2..] == [d.digits[n - 2], d.digits[n - 1]];
    assert p[0] == PairAt(d.digits, 0);
    assert p[n / 2 - 1] == PairAt(d.digits, n / 2 - 1);
    assert d.digits[0] != '0' || d.digits[1] != '0';
    assert d.digits[n - 2] != '0' || d.digits[n - 1] != '0';
    assert 2 * (n / 2 - 1) == n - 2;
  }

  /** The exponent byte decides first, the pairs break ties. */
  ghost predicate SmallerMagnitude(a: Decimal, b: Decimal)
    requires WellFormed(a) && WellFormed(b)
  {
    Exponent(a) < Exponent(b)
    || (Exponent(a) == Exponent(b) && LexLess(Pairs(a.digits), Pairs(b.digits)))
  }

  /** A canonical number lies between two powers of one hundred. */
  lemma MagnitudeBounds(d: Decimal)
    requires Canonical(d) && d.sign != 0
    ensures Scale10(2 * Exponent(d)) <= Magnitude(d.digits, d.weight) < Scale10(2 * Exponent(d) + 2)
  {
    hide Scale10, Fraction, Magnitude, NatVal, Exponent;
    var e := 2 * Exponent(d);
    CanonicalPairs(d);
    FractionBounds(Pairs(d.digits));
    MagnitudeAsFraction(d);
    ScaleStep(e);
    ScaleStep(e + 1);
    FractionTimes(Fraction(Pairs(d.digits)), Scale10(e + 2), Magnitude(d.digits, d.weight));
  }

  lemma FractionTimes(f: real, scale: real, product: real)
    requires 0.01 <= f < 1.0 && scale > 0.0 && product == f * scale
    ensures scale / 100.0 <= product < scale
  {
    MulLess(f, 1.0, scale);
    MulLess(f, 0.01, scale);
  }

  lemma MagnitudeOrder(a: Decimal, b: Decimal)
    requires Canonical(a) && Canonical(b) && a.sign != 0 && b.sign != 0
    ensures SmallerMagnitude(a, b) <==> Magnitude(a.digits, a.weight) < Magnitude(b.digits, b.weight)
    ensures Magnitude(a.digits, a.weight) == Magnitude(b.digits, b.weight)
      <==> Exponent(a) == Exponent(b) && Pairs(a.digits) == Pairs(b.digits)
  {
    hide Scale10, Fraction, Magnitude, Canonical, Exponent;
    CanonicalWellFormed(a);
    CanonicalWellFormed(b);
    MagnitudeBounds(a);
    MagnitudeBounds(b);
    if Exponent(a) < Exponent(b) {
      ScaleMonotone(2 * Exponent(a) + 2, 2 * Exponent(b));
    } else if Exponent(b) < Exponent(a) {
      ScaleMonotone(2 * Exponent(b) + 2, 2 * Exponent(a));
    } else {
      SameExponentOrder(a, b);
    }
  }

  lemma SameExponentOrder(a: Decimal, b: Decimal)
    requires Canonical(a) && Canonical(b) && a.sign != 0 && b.sign != 0
    requires Exponent(a) == Exponent(b)
    ensures LexLess(Pairs(a.digits), Pairs(b.digits)) <==> Magnitude(a.digits, a.weight) < Magnitude(b.digits, b.weight)
    ensures Magnitude(a.digits, a.weight) == Magnitude(b.digits, b.weight) <==> Pairs(a.digits) == Pairs(b.digits)
  {
    hide Scale10, Fraction, Magnitude, Exponent, LexLess, Canonical, IsPairs, NoTrailingZero, Pairs;
    CanonicalWellFormed(a);
    CanonicalWellFormed(b);
    CanonicalPairs(a);
    CanonicalPairs(b);
    FractionOrder(Pairs(a.digits), Pairs(b.digits));
    MagnitudeAsFraction(a);
    MagnitudeAsFraction(b);
    MulLess(Fraction(Pairs(a.digits)), Fraction(Pairs(b.digits)), Scale10(2 * Exponent(a) + 2));
  }

  lemma CanonicalWellFormed(d: Decimal)
    requires Canonical(d)
    ensures WellFormed(d)
  {}

  // ---------- the order theorem ----------

  /** A magnitude the exponent byte can hold. */
  ghost predicate HasRoom(d: Decimal) {
    Canonical(d) && (d.sign != 0 ==> ExponentFits(d))
  }

  /** Few enough digits, too, for the encoding to keep them all. */
  ghost predicate Encodable(d: Decimal) {
    HasRoom(d) && |d.digits| <= (if d.sign < 0 then 38 else 40)
  }

  lemma EncodedWhole(d: Decimal)
    requires Encodable(d) && d.sign != 0
    ensures Encoded(d) == Ok([HeadByte(d.sign, Exponent(d))] + PairBytes(d.sign, Pairs(d.digits))
                             + if d.sign < 0 then [TERMINATOR] else [])
  {
    assert Pairs(d.digits)[..|d.digits| / 2] == Pairs(d.digits);
  }

  lemma LexHead(x: int, y: int, a: seq<int>, b: seq<int>)
    ensures LexLess([x] + a, [y] + b) <==> x < y || (x == y && LexLess(a, b))
  {
    assert ([x] + a)[1..] == a && ([y] + b)[1..] == b;
  }

  lemma HeadByteOrder(sign: int, e1: int, e2: int)
    requires sign in {-1, 1}
    requires EXP_MIN <= e1 <= (if sign == 1 then POSITIVE_EXP_MAX else EXP_MAX)
    requires EXP_MIN <= e2 <= (if sign == 1 then POSITIVE_EXP_MAX else EXP_MAX)
    ensures HeadByte(sign, e1) < HeadByte(sign, e2) <==> if sign > 0 then e1 < e2 else e2 < e1
    ensures HeadByte(sign, e1) == HeadByte(sign, e2) <==> e1 == e2
    ensures if sign > 0 then HeadByte(sign, e1) > FLAG_ZERO else HeadByte(sign, e1) < FLAG_ZERO
  {}

  /** Two numbers of one sign. */
  lemma SameSignOrder(a: Decimal, b: Decimal)
    requires Encodable(a) && Encodable(b) && a.sign == b.sign != 0
    ensures LexLess(Encoded(a).value, Encoded(b).value) <==>
      if a.sign > 0 then SmallerMagnitude(a, b) else SmallerMagnitude(b, a)
  {
    hide HeadByte, Canonical;
    EncodedWhole(a);
    EncodedWhole(b);
    CanonicalPairs(a);
    CanonicalPairs(b);
    CanonicalWellFormed(a);
    CanonicalWellFormed(b);
    var p, q := Pairs(a.digits), Pairs(b.digits);
    var s := a.sign;
    var tail: seq<Byte> := if s < 0 then [TERMINATOR] else [];
    var x, y := HeadByte(s, Exponent(a)), HeadByte(s, Exponent(b));
    assert Encoded(a).value == [x] + (PairBytes(s, p) + tail);
    assert Encoded(b).value == [y] + (PairBytes(s, q) + tail);
    LexHead(x, y, PairBytes(s, p) + tail, PairBytes(s, q) + tail);
    HeadByteOrder(s, Exponent(a), Exponent(b));
    if s > 0 {
      PositiveBytesOrder(p, q);
      assert PairBytes(s, p) + tail == PairBytes(1, p) && PairBytes(s, q) + tail == PairBytes(1, q);
    } else {
      NegativeBytesOrder(p, q);
    }
  }

  /** For all encodable decimals, byte order is numeric order. */
  lemma EncodingOrder(a: Decimal, b: Decimal)
    requires Encodable(a) && Encodable(b)
    ensures Encoded(a).Ok? && Encoded(b).Ok?
    ensures LexLess(Encoded(a).value, Encoded(b).value) <==> Value(a) < Value(b)
  {
    SignOfValue(a);
    SignOfValue(b);
    if a.sign == b.sign && a.sign != 0 {
      SameSignOrder(a, b);
      MagnitudeOrder(a, b);
      MagnitudeOrder(b, a);
      hide Magnitude, Canonical, Encoded, SmallerMagnitude;
    } else {
      FirstByte(a);
      FirstByte(b);
      hide Magnitude, Canonical, Encoded;
      var x, y := Encoded(a).value, Encoded(b).value;
      assert x == [x[0]] + x[1..] && y == [y[0]] + y[1..];
      LexHead(x[0], y[0], x[1..], y[1..]);
    }
  }

  lemma SignOfValue(d: Decimal)
    requires Canonical(d)
    ensures Value(d) == if d.sign == 0 then 0.0 else if d.sign > 0 then Magnitude(d.digits, d.weight)
                        else -Magnitude(d.digits, d.weight)
    ensures d.sign != 0 ==> Magnitude(d.digits, d.weight) > 0.0
  {
    if d.sign != 0 {
      MagnitudeBounds(d);
    }
  }

  /** Zero is 0x80; negative numbers start below it and positive ones above. */
  lemma FirstByte(d: Decimal)
    requires HasRoom(d)
    ensures Encoded(d).Ok? && |Encoded(d).value| >= 1
    ensures var b := Encoded(d).value[0];
      (d.sign < 0 <==> b < FLAG_ZERO) && (d.sign > 0 <==> b > FLAG_ZERO)
    ensures d.sign == 0 ==> Encoded(d).value == [FLAG_ZERO]
  {
    if d.sign != 0 {
      HeadByteOrder(d.sign, Exponent(d), Exponent(d));
    }
  }

  // ---------- any number of digits ----------

  function FirstFew(s: seq<int>, k: nat): seq<int> { if |s| < k then s else s[..k] }

  lemma FirstFewTail(s: seq<int>, k: nat)
    requires s != [] && k > 0
    ensures FirstFew(s, k) != [] && FirstFew(s, k)[0] == s[0] && FirstFew(s, k)[1..] == FirstFew(s[1..], k - 1)
  {
    if |s| >= k {
      assert s[..k][1..] == s[1..][..k - 1];
    }
  }

  /** Lists cut at the same length are only in order if the whole lists are. */
  lemma {:induction false} CutLess(p: seq<int>, q: seq<int>, k: nat)
    requires LexLess(FirstFew(p, k), FirstFew(q, k))
    ensures LexLess(p, q)
  {
    assert q != [] && k > 0;
    if p != [] {
      FirstFewTail(p, k);
      FirstFewTail(q, k);
      hide FirstFew;
      if p[0] == q[0] {
        CutLess(p[1..], q[1..], k - 1);
      }
    }
  }

  /** The pairs that are kept. */
  function Cut(d: Decimal): seq<nat>
    requires WellFormed(d)
  {
    Pairs(d.digits)[..KeptPairs(d)]
  }

  lemma CutPairs(a: Decimal, b: Decimal)
    requires Canonical(a) && Canonical(b) && a.sign == b.sign != 0
    ensures IsPairs(Cut(a)) && IsPairs(Cut(b))
    ensures LexLess(Cut(a), Cut(b)) ==> LexLess(Pairs(a.digits), Pairs(b.digits))
  {
    CanonicalPairs(a);
    CanonicalPairs(b);
    var p, q, k := Pairs(a.digits), Pairs(b.digits), if a.sign < 0 then XDEC_SIZE - 2 else XDEC_SIZE - 1;
    assert Cut(a) == FirstFew(p, k) && Cut(b) == FirstFew(q, k);
    if LexLess(Cut(a), Cut(b)) {
      CutLess(p, q, k);
    }
  }

  lemma SameSignMonotone(a: Decimal, b: Decimal)
    requires HasRoom(a) && HasRoom(b) && a.sign == b.sign != 0
    requires LexLess(Encoded(a).value, Encoded(b).value)
    ensures if a.sign > 0 then SmallerMagnitude(a, b) else SmallerMagnitude(b, a)
  {
    hide HeadByte, Canonical;
    CanonicalWellFormed(a);
    CanonicalWellFormed(b);
    CutPairs(a, b);
    CutPairs(b, a);
    var s, p, q := a.sign, Cut(a), Cut(b);
    var tail: seq<Byte> := if s < 0 then [TERMINATOR] else [];
    var x, y := HeadByte(s, Exponent(a)), HeadByte(s, Exponent(b));
    assert Encoded(a).value == [x] + (PairBytes(s, p) + tail);
    assert Encoded(b).value == [y] + (PairBytes(s, q) + tail);
    LexHead(x, y, PairBytes(s, p) + tail, PairBytes(s, q) + tail);
    HeadByteOrder(s, Exponent(a), Exponent(b));
    if s > 0 {
      PositiveBytesOrder(p, q);
      assert PairBytes(s, p) + tail == PairBytes(1, p) && PairBytes(s, q) + tail == PairBytes(1, q);
    } else {
      NegativeBytesOrder(p, q);
    }
  }

  lemma {:induction false} LexTotal(a: seq<int>, b: seq<int>)
    ensures LexLess(a, b) || a == b || LexLess(b, a)
  {
    if a != [] && b != [] && a[0] == b[0] {
      LexTotal(a[1..], b[1..]);
      assert a == [a[0]] + a[1..] && b == [b[0]] + b[1..];
    }
  }

  /** However many digits there are, the encoding never reverses two numbers: the
      smaller one has the smaller bytes, or, when digits were cut, the same. */
  lemma EncodingMonotone(a: Decimal, b: Decimal)
    requires HasRoom(a) && HasRoom(b)
    ensures Encoded(a).Ok? && Encoded(b).Ok?
    ensures LexLess(Encoded(a).value, Encoded(b).value) ==> Value(a) < Value(b)
    ensures Value(a) <= Value(b) ==> Encoded(a).value == Encoded(b).value || LexLess(Encoded(a).value, Encoded(b).value)
  {
    FirstByte(a);
    FirstByte(b);
    if LexLess(Encoded(a).value, Encoded(b).value) { BytesDecide(a, b); }
    if LexLess(Encoded(b).value, Encoded(a).value) { BytesDecide(b, a); }
    LexTotal(Encoded(a).value, Encoded(b).value);
  }

  lemma BytesDecide(a: Decimal, b: Decimal)
    requires HasRoom(a) && HasRoom(b)
    requires Encoded(a).Ok? && Encoded(b).Ok? && LexLess(Encoded(a).value, Encoded(b).value)
    ensures Value(a) < Value(b)
  {
    SignOfValue(a);
    SignOfValue(b);
    if a.sign == b.sign && a.sign != 0 {
      SameSignMonotone(a, b);
      MagnitudeOrder(a, b);
      MagnitudeOrder(b, a);
      hide Magnitude, Canonical, Encoded, SmallerMagnitude;
    } else {
      FirstByte(a);
      FirstByte(b);
      hide Magnitude, Canonical, Encoded;
      var x, y := Encoded(a).value, Encoded(b).value;
      assert x == [x[0]] + x[1..] && y == [y[0]] + y[1..];
      LexHead(x[0], y[0], x[1..], y[1..]);
    }
  }

  // ---------- consequences ----------

  /** The normal form of a number is unique. */
  lemma CanonicalUnique(a: Decimal, b: Decimal)
    requires Canonical(a) && Canonical(b) && Value(a) == Value(b)
    ensures a.sign == b.sign && a.weight == b.weight && a.digits == b.digits
  {
    SignOfValue(a);
    SignOfValue(b);
    if a.sign != 0 {
      assert a.sign == b.sign;
      MagnitudeOrder(a, b);
      assert |a.digits| == 2 * |Pairs(a.digits)| && |b.digits| == 2 * |Pairs(b.digits)|;
      PairsInjective(a.digits, b.digits);
    }
  }

  lemma PairsInjective(a: string, b: string)
    requires AllDigits(a) && AllDigits(b) && |a| % 2 == 0 && |b| % 2 == 0
    requires Pairs(a) == Pairs(b)
    ensures a == b
  {
    forall k | 0 <= k < |a| ensures a[k] == b[k] {
      var i := k / 2;
      assert Pairs(a)[i] == PairAt(a, i) && Pairs(b)[i] == PairAt(b, i);
      DigitCharVal(a[k]);
      DigitCharVal(b[k]);
    }
  }

  /** Encoding refuses exactly the magnitudes outside [10^-128, 10^126), or
      [10^-128, 10^124) for negative numbers. */
  lemma EncodingDomain(d: Decimal)
    requires Canonical(d)
    ensures Encoded(d).Err? <==>
      d.sign != 0 && var m := Magnitude(d.digits, d.weight);
        m < Scale10(-128) || m >= Scale10(if d.sign > 0 then 126 else 124)
  {
    if d.sign != 0 {
      MagnitudeBounds(d);
      var e := Exponent(d);
      var top := if d.sign > 0 then POSITIVE_EXP_MAX else EXP_MAX;
      hide Scale10, Magnitude;
      if e < EXP_MIN {
        ScaleMonotone(2 * e + 2, -128);
      } else {
        ScaleMonotone(-128, 2 * e);
      }
      if e > top {
        ScaleMonotone(2 * top + 2, 2 * e);
      } else {
        ScaleMonotone(2 * e + 2, 2 * top + 2);
      }
    }
  }

  /** Any plain text that denotes the number a canonical decimal stands for is
      read back as that decimal. */
  method ReadBack(d: Decimal, text: string) returns (r: Decimal)
    requires Canonical(d)
    requires d.sign != 0 ==>
      && (d.sign < 0 ==> text != "" && text[0] == '-')
      && var body := if d.sign < 0 then text[1..] else text;
         PlainText(body) && TextMagnitude(body) > 0.0 && Value(d) == d.sign as real * TextMagnitude(body)
    ensures r.sign == d.sign && r.weight == d.weight && r.digits == d.digits
  {
    r := NewDecimalText(d.sign, text, d.prec, d.scale);
    CanonicalUnique(r, d);
  }

  // ---------- reading back what was printed ----------

  /** The printed text without its sign. */
  function Unsigned(d: Decimal): string
    requires Canonical(d) && d.sign != 0
  {
    DropOneTrailingZero(DropOneLeadingZero(WithPoint(d.digits, d.weight)))
  }

  /** All digits are behind the point, and none is padded: printed as ".12". */
  predicate BarePoint(d: Decimal) {
    d.weight < 0 && |d.digits| == -d.weight
  }

  lemma PlainInteger(t: string)
    requires AllDigits(t) && t != "" && t[0] != '0'
    ensures PlainText(t)
  {
    CharAbsent(t, '.');
  }

  lemma PlainPoint(ip: string, fp: string)
    requires AllDigits(ip) && AllDigits(fp) && |ip| + |fp| >= 1
    ensures PlainText(ip + "." + fp) <==> ip != "" && (ip[0] != '0' || |ip| == 1)
  {
    var t := ip + "." + fp;
    PointText(ip, fp);
    assert t[..|ip|] == ip;
    CharIndexIs(t, '.', |ip|);
  }

  /** The part before the point, and the part behind it before a zero is dropped. */
  lemma PrintedParts(d: Decimal) returns (ip: string, fp: string)
    requires Canonical(d) && d.sign != 0 && d.weight < 0
    ensures AllDigits(ip) && AllDigits(fp) && |fp| >= 2
    ensures DropOneLeadingZero(WithPoint(d.digits, d.weight)) == ip + "." + fp
    ensures ip == "" <==> BarePoint(d)
    ensures ip != "" ==> ip[0] != '0' || |ip| == 1
  {
    if |d.digits| < -d.weight {
      ip, fp := PaddedParts(d.digits, d.weight);
    } else {
      var dot := |d.digits| + d.weight;
      ip, fp := d.digits[..dot], d.digits[dot..];
      if dot > 1 && d.digits[0] == '0' {
        assert d.digits[..2] == [d.digits[0], d.digits[1]];
        assert (ip + "." + fp)[1..] == ip[1..] + "." + fp;
        ip := ip[1..];
      }
    }
  }

  lemma PaddedParts(digits: string, weight: int) returns (ip: string, fp: string)
    requires AllDigits(digits) && 2 <= |digits| < -weight
    ensures ip == "0" && AllDigits(fp) && |fp| >= 2
    ensures DropOneLeadingZero(WithPoint(digits, weight)) == ip + "." + fp
  {
    var padded := Zeros(-weight - |digits| + 1) + digits;
    ip, fp := padded[..1], padded[1..];
  }

  /** Dropping a trailing zero leaves the part before the point alone. */
  lemma TrailingDropped(ip: string, fp: string) returns (rest: string)
    requires AllDigits(ip) && AllDigits(fp) && |fp| >= 2
    ensures AllDigits(rest) && rest != "" && DropOneTrailingZero(ip + "." + fp) == ip + "." + rest
  {
    rest := fp;
    assert (ip + "." + fp)[|ip|] == '.';
    if fp[|fp| - 1] == '0' {
      rest := fp[..|fp| - 1];
      assert (ip + "." + fp)[..|ip| + |fp|] == ip + "." + rest;
    }
  }

  /** The printed text is plain exactly when it does not begin with the point; if
      it does, a zero in front makes it so. */
  lemma PrintedPlain(d: Decimal)
    requires Canonical(d) && d.sign != 0
    ensures PlainText(Unsigned(d)) <==> !BarePoint(d)
    ensures NumeralText(Unsigned(d))
    ensures BarePoint(d) ==> PlainText("0" + Unsigned(d)) && NumeralText("0" + Unsigned(d))
    ensures BarePoint(d) ==> TextMagnitude("0" + Unsigned(d)) == TextMagnitude(Unsigned(d))
  {
    hide Magnitude, NatVal, NumeralText, TextMagnitude, PlainText, WithPoint, DropOneLeadingZero, DropOneTrailingZero;
    if d.weight < 0 {
      var ip, fp := PrintedParts(d);
      var rest := TrailingDropped(ip, fp);
      PlainPoint(ip, rest);
      PointText(ip, rest);
      if BarePoint(d) {
        assert ip + "." + rest == "." + rest && ip + rest == rest;
        assert "0" + Unsigned(d) == "0" + "." + rest;
        PlainPoint("0", rest);
        PointText("0", rest);
        PadMagnitude(rest, -|rest|);
      }
    } else {
      PrintedInteger(d);
      PlainInteger(Unsigned(d));
      IntegerText(Unsigned(d));
    }
  }

  lemma PrintedInteger(d: Decimal)
    requires Canonical(d) && d.sign != 0 && d.weight >= 0
    ensures var t := Unsigned(d); AllDigits(t) && t != "" && t[0] != '0'
  {
    var t := WithPoint(d.digits, d.weight);
    assert d.digits[..2] == [d.digits[0], d.digits[1]];
    assert t[0] == d.digits[0] && t[1] == d.digits[1];
    var u := DropOneLeadingZero(t);
    CharAbsentDigits(u);
  }

  lemma Positive(sign: int, m: real, magnitude: real)
    requires sign in {-1, 1} && magnitude > 0.0
    requires sign as real * m == if sign > 0 then magnitude else -magnitude
    ensures m > 0.0
  {}

  /** A canonical decimal printed, and its text given to newDecimal as big.Float would
      write it exactly, is the same decimal; text that begins with the point is read
      with a zero in front. */
  method ReadPrinted(d: Decimal) returns (r: Decimal)
    requires Canonical(d)
    ensures r.sign == d.sign && r.weight == d.weight && r.digits == d.digits
  {
    hide Magnitude, NatVal, NumeralText, TextMagnitude, PlainText, WithPoint;
    var text := ToString(d);
    if d.sign != 0 {
      PrintedPlain(d);
      ToStringDenotes(d);
      SignOfValue(d);
      assert text == if d.sign < 0 then "-" + Unsigned(d) else Unsigned(d);
      if BarePoint(d) {
        text := if d.sign < 0 then "-0" + text[1..] else "0" + text;
        assert (if d.sign < 0 then text[1..] else text) == "0" + Unsigned(d);
      }
      ghost var body := if d.sign < 0 then text[1..] else text;
      assert PlainText(body) && NumeralText(body);
      assert Value(d) == d.sign as real * TextMagnitude(body);
      assert TextMagnitude(body) > 0.0 by { Positive(d.sign, TextMagnitude(body), Magnitude(d.digits, d.weight)); }
    }
    r := ReadBack(d, text);
  }
}
