/**
 The wire form of a decimal (dm/o.go:318-430): one exponent byte, one byte for
 each digit pair, and for negative numbers a closing 0x66. Decoding gives back
 what was encoded, up to the number of pairs that fit, and comparing the bytes
 compares the numbers.
 */
module DecimalCodec {
  import opened Bytes
  import opened DecimalNumber
  import opened Scale
  import opened Sequences
  import opened Text

  const XDEC_SIZE: int := 21
  const FLAG_ZERO: int := 0x80
  const FLAG_POSITIVE: int := 0xC1
  const FLAG_NEGTIVE: int := 0x3E
  const POSITIVE_EXP_MAX: int := 0xFF - FLAG_POSITIVE
  const EXP_MAX: int := 0xFF - 1 - FLAG_POSITIVE
  const EXP_MIN: int := FLAG_NEGTIVE + 1 - 0x7F
  const NUM_POSITIVE: int := 1
  const NUM_NEGTIVE: int := 101
  const TERMINATOR: int := 0x66

  // ---------- digit pairs ----------

  function PairAt(digits: string, i: nat): (p: nat)
    requires AllDigits(digits) && 2 * i + 1 < |digits|
    ensures p < 100
  {
    DigitVal(digits[2 * i]) * 10 + DigitVal(digits[2 * i + 1])
  }

  function Pairs(digits: string): (p: seq<nat>)
    requires AllDigits(digits) && |digits| % 2 == 0
    ensures |p| == |digits| / 2
    ensures forall i :: 0 <= i < |p| ==> p[i] == PairAt(digits, i)
  {
    seq(|digits| / 2, i requires 0 <= i < |digits| / 2 => PairAt(digits, i))
  }

  // ---------- encoding ----------

  /** The base-100 exponent of the first pair. */
  function Exponent(d: Decimal): int {
    (d.weight + |d.digits|) / 2 - 1
  }

  predicate ExponentFits(d: Decimal) {
    EXP_MIN <= Exponent(d) <= (if d.sign == 1 then POSITIVE_EXP_MAX else EXP_MAX)
  }

  /** How many digit pairs the encoding has room for. */
  function KeptPairs(d: Decimal): nat {
    var room := if d.sign < 0 then XDEC_SIZE - 2 else XDEC_SIZE - 1;
    if |d.digits| / 2 < room then |d.digits| / 2 else room
  }

  function HeadByte(sign: int, exp: int): Byte {
    if sign > 0 then ToByte(exp + FLAG_POSITIVE) else ToByte(FLAG_NEGTIVE - exp)
  }

  function PairByte(sign: int, pair: int): Byte {
    if sign > 0 then ToByte(pair + NUM_POSITIVE) else ToByte(NUM_NEGTIVE - pair)
  }

  function PairBytes(sign: int, pairs: seq<nat>): (b: seq<Byte>)
    ensures |b| == |pairs|
    ensures forall i :: 0 <= i < |b| ==> b[i] == PairByte(sign, pairs[i])
  {
    seq(|pairs|, i requires 0 <= i < |pairs| => PairByte(sign, pairs[i]))
  }

  function Encoded(d: Decimal): Result<seq<Byte>>
    requires WellFormed(d)
  {
    if d.sign == 0 then Ok([ToByte(FLAG_ZERO)])
    else if !ExponentFits(d) then Err(DataTooLong)
    else
      Ok([HeadByte(d.sign, Exponent(d))]
         + PairBytes(d.sign, Pairs(d.digits)[..KeptPairs(d)])
         + if d.sign < 0 then [ToByte(TERMINATOR)] else [])
  }

  /** Head, pairs and terminator in their places are the encoding. */
  lemma AllPairs(d: Decimal, bytes: seq<Byte>, validLen: nat)
    requires WellFormed(d) && d.sign != 0 && validLen == 1 + KeptPairs(d)
    requires |bytes| == validLen + (if d.sign < 0 then 1 else 0) && bytes[0] == HeadByte(d.sign, Exponent(d))
    requires forall i :: 1 <= i < validLen ==> bytes[i] == PairByte(d.sign, PairAt(d.digits, i - 1))
    requires d.sign < 0 ==> bytes[validLen] == TERMINATOR
    ensures bytes == [HeadByte(d.sign, Exponent(d))] + PairBytes(d.sign, Pairs(d.digits)[..KeptPairs(d)])
      + if d.sign < 0 then [ToByte(TERMINATOR)] else []
  {
    hide PairByte, HeadByte, PairAt;
    var kept := Pairs(d.digits)[..KeptPairs(d)];
    assert bytes[1..validLen] == PairBytes(d.sign, kept);
    assert bytes == [bytes[0]] + bytes[1..validLen] + bytes[validLen..];
  }

  /** `encodeDecimal` */
  method EncodeDecimal(d: Decimal) returns (r: Result<seq<Byte>>)
    requires WellFormed(d)
    ensures r == Encoded(d)
  {
    if d.sign == 0 {
      return Ok([ToByte(FLAG_ZERO)]);
    }
    var exp := (d.weight + |d.digits|) / 2 - 1;
    var realExpMax := if d.sign == NUM_POSITIVE then POSITIVE_EXP_MAX else EXP_MAX;
    if exp > realExpMax || exp < EXP_MIN {
      return Err(DataTooLong);
    }
    var validLen := |d.digits| / 2 + 1;
    if d.sign < 0 && validLen >= XDEC_SIZE {
      validLen := XDEC_SIZE - 1;
    } else if validLen > XDEC_SIZE {
      validLen := XDEC_SIZE;
    }
    var retLen := if d.sign < 0 then validLen + 1 else validLen;
    var retBytes := new Byte[retLen](_ => 0);
    retBytes[0] := if d.sign > 0 then ToByte(exp + FLAG_POSITIVE) else ToByte(FLAG_NEGTIVE - exp);
    var ibytes, ichar := 1, 0;
    while ibytes < validLen
      invariant 1 <= ibytes <= validLen && ichar == 2 * (ibytes - 1)
      invariant retBytes[0] == HeadByte(d.sign, exp)
      invariant forall i :: 1 <= i < ibytes ==> retBytes[i] == PairByte(d.sign, PairAt(d.digits, i - 1))
    {
      var digit1 := DigitVal(d.digits[ichar]);
      var digit2 := DigitVal(d.digits[ichar + 1]);
      ichar := ichar + 2;
      var digit := digit1 * 10 + digit2;
      assert digit == PairAt(d.digits, ibytes - 1);
      retBytes[ibytes] := if d.sign > 0 then ToByte(digit + NUM_POSITIVE) else ToByte(NUM_NEGTIVE - digit);
      ibytes := ibytes + 1;
    }
    if d.sign < 0 && ibytes < retLen {
      retBytes[ibytes] := TERMINATOR;
      ibytes := ibytes + 1;
    }
    r := Ok(retBytes[..]);
    hide PairByte, HeadByte, Pairs, PairBytes, ExponentFits;
    AllPairs(d, retBytes[..], validLen);
  }

  // ---------- the bytes themselves ----------

  /** The k-th pair of digits as a number. */
  function DigitPair(digits: string, k: nat): int
    requires 2 * k + 1 < |digits|
  {
    10 * (digits[2 * k] as int - '0' as int) + (digits[2 * k + 1] as int - '0' as int)
  }

  lemma PairIs(digits: string, k: nat)
    requires AllDigits(digits) && 2 * k + 1 < |digits|
    ensures PairAt(digits, k) == DigitPair(digits, k)
  {
    assert IsDigit(digits[2 * k]) && IsDigit(digits[2 * k + 1]);
  }

  /** A positive number: 0xC1 and the exponent, then at most 20 pairs, each plus one. */
  lemma PositiveBytes(d: Decimal)
    requires WellFormed(d) && d.sign == 1
    ensures var e := (d.weight + |d.digits|) / 2 - 1;
      && (Encoded(d).Ok? <==> -64 <= e <= 62)
      && (Encoded(d).Ok? ==>
            && |Encoded(d).value| == 1 + (if |d.digits| <= 40 then |d.digits| / 2 else 20)
            && Encoded(d).value[0] == 0xC1 + e
            && forall k :: 0 <= k < |Encoded(d).value| - 1 ==> Encoded(d).value[k + 1] == DigitPair(d.digits, k) + 1)
  {
    hide AllDigits, DigitPair;
    if Encoded(d).Ok? {
      var bytes := Encoded(d).value;
      forall k | 0 <= k < |bytes| - 1 ensures bytes[k + 1] == DigitPair(d.digits, k) + 1 {
        assert bytes[k + 1] == PairByte(1, Pairs(d.digits)[k]);
        PairIs(d.digits, k);
      }
    }
  }

  /** A negative one: 0x3E less the exponent, then at most 19 pairs, each taken from
      101, and 0x66 at the end. */
  lemma NegativeBytes(d: Decimal)
    requires WellFormed(d) && d.sign == -1
    ensures var e := (d.weight + |d.digits|) / 2 - 1;
      && (Encoded(d).Ok? <==> -64 <= e <= 61)
      && (Encoded(d).Ok? ==>
            && |Encoded(d).value| == 2 + (if |d.digits| <= 38 then |d.digits| / 2 else 19)
            && Encoded(d).value[0] == 0x3E - e
            && Encoded(d).value[|Encoded(d).value| - 1] == 0x66
            && forall k :: 0 <= k < |Encoded(d).value| - 2 ==> Encoded(d).value[k + 1] == 101 - DigitPair(d.digits, k))
  {
    hide AllDigits, DigitPair;
    if Encoded(d).Ok? {
      var bytes := Encoded(d).value;
      forall k | 0 <= k < |bytes| - 2 ensures bytes[k + 1] == 101 - DigitPair(d.digits, k) {
        assert bytes[k + 1] == PairByte(-1, Pairs(d.digits)[k]);
        PairIs(d.digits, k);
      }
    }
  }

  /** A number and its negation: the first bytes add to 0xFF and every pair of digit
      bytes to 0x66, which also ends the negative one; zero is 0x80 alone. */
  lemma NegationBytes(d: Decimal)
    requires WellFormed(d) && d.sign == 1 && |d.digits| <= 38
    requires Encoded(d).Ok? && Encoded(d.(sign := -1)).Ok?
    ensures var p, n := Encoded(d).value, Encoded(d.(sign := -1)).value;
      && |n| == |p| + 1 == |d.digits| / 2 + 2
      && p[0] as int + n[0] as int == 0xFF
      && (forall k :: 1 <= k < |p| ==> p[k] as int + n[k] as int == 0x66)
      && n[|p|] == 0x66
    ensures Encoded(Decimal(0, 0, d.prec, d.scale, "")) == Ok([0x80])
  {
    var m := d.(sign := -1);
    PositiveBytes(d);
    NegativeBytes(m);
    hide DigitPair;
    var p, n := Encoded(d).value, Encoded(m).value;
    hide Encoded;
    forall k | 1 <= k < |p| ensures p[k] as int + n[k] as int == 0x66 {
      assert p[(k - 1) + 1] == DigitPair(d.digits, k - 1) + 1;
      assert n[(k - 1) + 1] == 101 - DigitPair(d.digits, k - 1);
    }
    ZeroByte(d.prec, d.scale);
  }

  lemma ZeroByte(prec: int, scale: int)
    ensures WellFormed(Decimal(0, 0, prec, scale, "")) && Encoded(Decimal(0, 0, prec, scale, "")) == Ok([0x80])
  {}

  // ---------- decoding ----------

  function DigitOf(sign: int, b: Byte): int {
    if sign > 0 then b - NUM_POSITIVE else NUM_NEGTIVE - b
  }

  function TwoDigits(digit: nat): string {
    if digit < 10 then "0" + Itoa(digit) else Itoa(digit)
  }

  /** The digits up to the first byte that is not a digit pair. */
  function DecodedDigits(sign: int, bytes: seq<Byte>): string {
    if bytes == [] then ""
    else
      var digit := DigitOf(sign, bytes[0]);
      if digit < 0 || digit > 99 then "" else TwoDigits(digit) + DecodedDigits(sign, bytes[1..])
  }

  function Decoded(values: seq<Byte>, prec: int, scale: int): Result<Decimal> {
    if |values| == 0 || |values| > XDEC_SIZE then Err(Fatal)
    else if values[0] == FLAG_ZERO || |values| == 1 then Ok(Decimal(0, 0, prec, scale, ""))
    else
      var sign := if values[0] >= 0x80 then 1 else -1;
      var exp := if sign > 0 then values[0] - FLAG_POSITIVE else FLAG_NEGTIVE - values[0];
      var digits := DecodedDigits(sign, values[1..]);
      Ok(Decimal(sign, exp * 2 - (|digits| - 2), prec, scale, digits))
  }

  /** One more pair read, or the end of the digits. */
  lemma DecodedFrom(sign: int, values: seq<Byte>, i: nat)
    requires i <= |values|
    ensures i == |values| ==> DecodedDigits(sign, values[i..]) == ""
    ensures i < |values| ==>
      var digit := DigitOf(sign, values[i]);
      DecodedDigits(sign, values[i..])
        == if digit < 0 || digit > 99 then "" else TwoDigits(digit) + DecodedDigits(sign, values[i + 1..])
  {
    hide TwoDigits;
    if i < |values| {
      assert values[i..][0] == values[i] && values[i..][1..] == values[i + 1..];
    }
  }

  /** The digit loop of `decodeDecimal` (dm/o.go:411-425). */
  method DecodeDigits(sign: int, values: seq<Byte>) returns (sf: string)
    requires |values| >= 1
    ensures sf == DecodedDigits(sign, values[1..])
  {
    hide Itoa, DecodedDigits;
    sf := "";
    var ival := 1;
    ghost var all := DecodedDigits(sign, values[1..]);
    assert "" + all == all;
    while ival < |values|
      invariant 1 <= ival <= |values|
      invariant all == sf + DecodedDigits(sign, values[ival..])
    {
      var digit := if sign > 0 then values[ival] - NUM_POSITIVE else NUM_NEGTIVE - values[ival];
      DecodedFrom(sign, values, ival);
      if digit < 0 || digit > 99 {
        break;
      }
      ghost var before := sf;
      if digit < 10 {
        sf := sf + "0";
      }
      sf := sf + Itoa(digit);
      Appended(before, digit, sf);
      ghost var rest := DecodedDigits(sign, values[ival + 1..]);
      Regroup(before, TwoDigits(digit), rest);
      ival := ival + 1;
    }
    if ival == |values| {
      DecodedFrom(sign, values, ival);
    }
    assert sf + "" == sf;
  }

  lemma Appended(before: string, digit: nat, after: string)
    requires after == if digit < 10 then before + "0" + Itoa(digit) else before + Itoa(digit)
    ensures after == before + TwoDigits(digit)
  {
    hide Itoa;
  }

  /** `decodeDecimal`; the sign is the top bit of the first byte. */
  method DecodeDecimal(values: seq<Byte>, prec: int, scale: int) returns (r: Result<Decimal>)
    ensures r == Decoded(values, prec, scale)
  {
    hide DecodedDigits;
    if |values| == 0 || |values| > XDEC_SIZE {
      return Err(Fatal);
    }
    if values[0] == FLAG_ZERO || |values| == 1 {
      return Ok(Decimal(0, 0, prec, scale, ""));
    }
    var sign := if values[0] >= 0x80 then 1 else -1;
    var exp := if sign > 0 then values[0] - FLAG_POSITIVE else FLAG_NEGTIVE - values[0];
    var sf := DecodeDigits(sign, values);
    r := Ok(Decimal(sign, exp * 2 - (|sf| - 2), prec, scale, sf));
  }

  // ---------- decoding what was encoded ----------

  lemma {:induction false} TwoDigitsOfPair(digits: string)
    requires AllDigits(digits) && |digits| == 2
    ensures TwoDigits(PairAt(digits, 0)) == digits
  {
    var p := PairAt(digits, 0);
    DigitCharVal(digits[0]);
    DigitCharVal(digits[1]);
    if p < 10 {
      assert Itoa(p) == [DigitChar(p)];
      assert digits[0] == '0';
    } else {
      assert p / 10 == DigitVal(digits[0]) && p % 10 == DigitVal(digits[1]);
      assert Itoa(p / 10) == [DigitChar(p / 10)];
    }
  }

  lemma PairByteInverse(sign: int, pair: nat)
    requires sign in {-1, 1} && pair < 100
    ensures DigitOf(sign, PairByte(sign, pair)) == pair
  {}

  /** Dropping the first two digits drops the first pair. */
  lemma PairsTail(digits: string)
    requires AllDigits(digits) && |digits| % 2 == 0 && |digits| >= 2
    ensures AllDigits(digits[2..]) && Pairs(digits[2..]) == Pairs(digits)[1..]
  {
    forall i | 0 <= i < |digits| / 2 - 1 ensures Pairs(digits)[i + 1] == Pairs(digits[2..])[i] {
      assert PairAt(digits, i + 1) == PairAt(digits[2..], i);
    }
  }

  /** Cutting digits at an even place cuts pairs. */
  lemma PairsPrefix(digits: string, k: nat)
    requires AllDigits(digits) && |digits| % 2 == 0 && 2 * k <= |digits|
    ensures Pairs(digits[..2 * k]) == Pairs(digits)[..k]
  {
    forall i | 0 <= i < k ensures Pairs(digits[..2 * k])[i] == Pairs(digits)[i] {
      assert PairAt(digits, i) == PairAt(digits[..2 * k], i);
    }
  }

  /** Reading the pair bytes back gives the digits, wherever the bytes stop. */
  lemma {:induction false} DigitsRoundTrip(sign: int, digits: string, tail: seq<Byte>)
    requires sign in {-1, 1} && AllDigits(digits) && |digits| % 2 == 0
    requires tail == [] || (sign < 0 && tail == [TERMINATOR])
    ensures DecodedDigits(sign, PairBytes(sign, Pairs(digits)) + tail) == digits
  {
    hide Itoa, TwoDigits, PairByte, DigitOf;
    var bytes := PairBytes(sign, Pairs(digits)) + tail;
    if digits == "" {
      assert bytes == tail;
      NoDigitsIn(sign, tail);
    } else {
      var rest := digits[2..];
      PairsTail(digits);
      assert bytes[1..] == PairBytes(sign, Pairs(rest)) + tail;
      DigitsRoundTrip(sign, rest, tail);
      TwoDigitsOfPair(digits[..2]);
      assert PairAt(digits[..2], 0) == PairAt(digits, 0);
      PairByteInverse(sign, PairAt(digits, 0));
      assert digits == digits[..2] + rest;
    }
  }

  lemma NoDigitsIn(sign: int, tail: seq<Byte>)
    requires tail == [] || (sign < 0 && tail == [TERMINATOR])
    ensures DecodedDigits(sign, tail) == "" && AllDigits("")
  {}

  /** What is left of a decimal on the wire: its leading pairs. */
  function Kept(d: Decimal): Decimal {
    var n := 2 * KeptPairs(d);
    if d.sign == 0 then Decimal(0, 0, d.prec, d.scale, "")
    else d.(digits := d.digits[..n], weight := d.weight + (|d.digits| - n))
  }

  lemma HeadByteDecodes(sign: int, exp: int)
    requires sign in {-1, 1} && EXP_MIN <= exp <= (if sign == 1 then POSITIVE_EXP_MAX else EXP_MAX)
    ensures var b := HeadByte(sign, exp);
      && b != FLAG_ZERO && (b >= 0x80 <==> sign == 1)
      && exp == if sign > 0 then b - FLAG_POSITIVE else FLAG_NEGTIVE - b
  {}

  /** Decoding an encoded decimal gives the same sign and exponent, and the
      pairs that fit: 20 of them for a positive number, 19 for a negative one. */
  lemma DecodeEncode(d: Decimal)
    requires WellFormed(d) && (d.sign != 0 ==> d.digits != "")
    ensures Encoded(d).Ok? <==> d.sign == 0 || ExponentFits(d)
    ensures Encoded(d).Ok? ==> 1 <= |Encoded(d).value| <= XDEC_SIZE
    ensures Encoded(d).Ok? ==> Decoded(Encoded(d).value, d.prec, d.scale) == Ok(Kept(d))
  {
    hide HeadByte, DecodedDigits, PairByte;
    if d.sign != 0 && ExponentFits(d) {
      var bytes := Encoded(d).value;
      var digits := d.digits[..2 * KeptPairs(d)];
      var tail: seq<Byte> := if d.sign < 0 then [ToByte(TERMINATOR)] else [];
      HeadByteDecodes(d.sign, Exponent(d));
      PairsPrefix(d.digits, KeptPairs(d));
      assert bytes[1..] == PairBytes(d.sign, Pairs(digits)) + tail;
      DigitsRoundTrip(d.sign, digits, tail);
      assert DecodedDigits(d.sign, bytes[1..]) == digits;
    }
  }

  /** Up to 40 digits (38 when negative) nothing is lost. */
  lemma ExactRoundTrip(d: Decimal)
    requires Canonical(d) && (d.sign == 0 || ExponentFits(d))
    requires |d.digits| <= (if d.sign < 0 then 38 else 40)
    ensures Encoded(d).Ok? && Decoded(Encoded(d).value, d.prec, d.scale) == Ok(d)
  {
    DecodeEncode(d);
    assert d.digits[..|d.digits|] == d.digits;
  }

  /** Beyond that, the number is cut off toward zero by less than one unit of
      the last pair that was kept. */
  lemma TruncationError(d: Decimal)
    requires WellFormed(d) && d.sign != 0 && d.digits != "" && ExponentFits(d)
    ensures WellFormed(Kept(d))
    ensures var err := d.sign as real * (Value(d) - Value(Kept(d)));
      0.0 <= err < Scale10(Kept(d).weight)
  {
    hide NatVal, Pow10, Scale10;
    var n := 2 * KeptPairs(d);
    var head, rest := d.digits[..n], d.digits[n..];
    assert d.digits == head + rest;
    assert Kept(d).digits == head && Kept(d).weight == d.weight + |rest|;
    assert WellFormed(Kept(d));
    hide Kept, KeptPairs, AllDigits;
    NatValAppend(head, rest);
    NatValBound(rest);
    ScaleNat(|rest|);
    ScaleAdd(d.weight, |rest|);
    TruncationCore(d.sign, NatVal(d.digits), NatVal(head), NatVal(rest), Pow10(|rest|),
                   Scale10(d.weight), Scale10(d.weight + |rest|));
  }

  lemma TruncationCore(sign: int, all: nat, head: nat, rest: nat, p: nat, unit: real, big: real)
    requires sign in {-1, 1} && unit > 0.0
    requires all == head * p + rest && rest < p && big == unit * p as real
    ensures var err := sign as real * (sign as real * (all as real * unit) - sign as real * (head as real * big));
      0.0 <= err < big
  {
    ProductAsReal(head, p);
    TruncationReal(all as real, head as real, p as real, rest as real, unit, big);
    SignCancels(sign, all as real * unit, head as real * big);
  }

  lemma TruncationReal(a: real, h: real, p: real, r: real, unit: real, big: real)
    requires a == h * p + r && 0.0 <= r < p && unit > 0.0 && big == unit * p
    ensures 0.0 <= a * unit - h * big < big
  {
    var x := p * unit;
    assert big == x;
    SumTimes(h * p, r, unit);
    Associate(h, p, unit);
    assert a * unit == h * x + r * unit;
    MulLess(r, p, unit);
    RealProduct(r, unit);
  }

  lemma RealProduct(x: real, y: real)
    requires x >= 0.0 && y >= 0.0
    ensures x * y >= 0.0
  {}

  lemma SignCancels(sign: int, x: real, y: real)
    requires sign in {-1, 1}
    ensures sign as real * (sign as real * x - sign as real * y) == x - y
  {}

  /** Decoding refuses only what is empty or longer than 21 bytes; one byte alone, or a
      first byte 0x80, is zero. */
  lemma DecodeRefuses(v: seq<Byte>, prec: int, scale: int)
    ensures Decoded(v, prec, scale).Err? <==> |v| == 0 || |v| > 21
    ensures 1 <= |v| <= 21 && (|v| == 1 || v[0] == 0x80) ==> Decoded(v, prec, scale) == Ok(Decimal(0, 0, prec, scale, ""))
  {
    hide DecodedDigits;
  }

  // ---------- encoding what was decoded ----------

  /** The byte strings `encodeDecimal` can produce. */
  ghost predicate WireForm(v: seq<Byte>) {
    if |v| == 0 || |v| > 21 then false
    else if v[0] == 0x80 then |v| == 1
    else if v[0] > 0x80 then
      |v| >= 2 && (forall i :: 1 <= i < |v| ==> 1 <= v[i] <= 100)
    else
      && 1 <= v[0] <= 0x7E && |v| >= 3 && v[|v| - 1] == 0x66
      && forall i :: 1 <= i < |v| - 1 ==> 2 <= v[i] <= 101
  }

  lemma PairOfTwoDigits(digit: nat)
    requires digit < 100
    ensures AllDigits(TwoDigits(digit)) && |TwoDigits(digit)| == 2
    ensures PairAt(TwoDigits(digit), 0) == digit
  {
    if digit >= 10 {
      assert Itoa(digit / 10) == [DigitChar(digit / 10)];
    }
  }

  lemma PairsCons(two: string, rest: string)
    requires AllDigits(two) && |two| == 2 && AllDigits(rest) && |rest| % 2 == 0
    ensures AllDigits(two + rest) && Pairs(two + rest) == [PairAt(two, 0)] + Pairs(rest)
  {
    var all := two + rest;
    assert all[2..] == rest;
    assert all[0] == two[0] && all[1] == two[1];
    assert PairAt(all, 0) == PairAt(two, 0);
    hide PairAt, AllDigits;
    PairsTail(all);
    assert Pairs(all) == [Pairs(all)[0]] + Pairs(all)[1..];
  }

  lemma PairBytesCons(sign: int, digit: nat, rest: seq<nat>)
    ensures PairBytes(sign, [digit] + rest) == [PairByte(sign, digit)] + PairBytes(sign, rest)
  {}

  lemma ByteOfDigit(sign: int, b: Byte)
    requires sign in {-1, 1} && 0 <= DigitOf(sign, b) <= 99
    ensures PairByte(sign, DigitOf(sign, b)) == b
  {}

  lemma DecodedCons(sign: int, body: seq<Byte>, tail: seq<Byte>)
    requires body != [] && 0 <= DigitOf(sign, body[0]) <= 99
    ensures DecodedDigits(sign, body + tail)
      == TwoDigits(DigitOf(sign, body[0])) + DecodedDigits(sign, body[1..] + tail)
  {
    hide TwoDigits, DigitOf;
    assert (body + tail)[0] == body[0] && (body + tail)[1..] == body[1..] + tail;
  }

  lemma {:induction false} BytesRoundTrip(sign: int, body: seq<Byte>, tail: seq<Byte>)
    requires sign in {-1, 1}
    requires forall i :: 0 <= i < |body| ==> 0 <= DigitOf(sign, body[i]) <= 99
    requires tail == [] || (sign < 0 && tail == [TERMINATOR])
    ensures var digits := DecodedDigits(sign, body + tail);
      AllDigits(digits) && |digits| == 2 * |body| && PairBytes(sign, Pairs(digits)) == body
  {
    hide DecodedDigits, TwoDigits, PairByte, Pairs, PairBytes, AllDigits, DigitOf;
    if body == [] {
      assert body + tail == tail;
      NoDigitsIn(sign, tail);
    } else {
      BytesRoundTrip(sign, body[1..], tail);
      DecodedCons(sign, body, tail);
      ByteOfDigit(sign, body[0]);
      PairRoundTrip(sign, DigitOf(sign, body[0]), DecodedDigits(sign, body[1..] + tail));
      assert body == [body[0]] + body[1..];
    }
  }

  lemma PairRoundTrip(sign: int, digit: nat, rest: string)
    requires digit < 100 && AllDigits(rest) && |rest| % 2 == 0
    ensures var digits := TwoDigits(digit) + rest;
      AllDigits(digits) && |digits| == 2 + |rest|
      && PairBytes(sign, Pairs(digits)) == [PairByte(sign, digit)] + PairBytes(sign, Pairs(rest))
  {
    hide Itoa, TwoDigits, PairByte, PairAt, Pairs, PairBytes, AllDigits;
    PairOfTwoDigits(digit);
    PairsCons(TwoDigits(digit), rest);
    PairBytesCons(sign, digit, Pairs(rest));
  }

  /** Every byte string of that form is the encoding of what it decodes to. */
  lemma EncodeDecode(v: seq<Byte>, prec: int, scale: int)
    requires WireForm(v)
    ensures var r := Decoded(v, prec, scale);
      r.Ok? && WellFormed(r.value) && Encoded(r.value) == Ok(v)
  {
    if v[0] != FLAG_ZERO {
      var sign := if v[0] >= 0x80 then 1 else -1;
      var tail: seq<Byte> := if sign < 0 then [TERMINATOR] else [];
      var body := if sign < 0 then v[1..|v| - 1] else v[1..];
      assert v == [v[0]] + body + tail;
      assert v[1..] == body + tail;
      BodyDigits(sign, body, v);
      hide DecodedDigits, PairByte, Pairs, PairBytes;
      BytesRoundTrip(sign, body, tail);
      ReEncoded(sign, v[0], body, Decoded(v, prec, scale).value);
    } else {
      assert v == [v[0]];
    }
  }

  lemma BodyDigits(sign: int, body: seq<Byte>, v: seq<Byte>)
    requires WireForm(v) && v[0] != FLAG_ZERO && sign == (if v[0] >= 0x80 then 1 else -1)
    requires body == if sign < 0 then v[1..|v| - 1] else v[1..]
    ensures 1 <= |body| && 1 + |body| + (if sign < 0 then 1 else 0) <= XDEC_SIZE
    ensures forall i :: 0 <= i < |body| ==> 0 <= DigitOf(sign, body[i]) <= 99
  {}

  /** Encoding the decimal read from a head byte and body bytes writes them again. */
  lemma ReEncoded(sign: int, head: Byte, body: seq<Byte>, d: Decimal)
    requires sign in {-1, 1} && d.sign == sign && AllDigits(d.digits) && |d.digits| == 2 * |body|
    requires PairBytes(sign, Pairs(d.digits)) == body && 1 <= |body|
    requires 1 + |body| + (if sign < 0 then 1 else 0) <= XDEC_SIZE
    requires if sign > 0 then head > FLAG_ZERO else 1 <= head <= 0x7E
    requires d.weight == (if sign > 0 then head - FLAG_POSITIVE else FLAG_NEGTIVE - head) * 2 - (|d.digits| - 2)
    ensures WellFormed(d)
    ensures Encoded(d) == Ok([head] + body + if sign < 0 then [ToByte(TERMINATOR)] else [])
  {
    hide Pairs, PairBytes, PairByte;
    assert Pairs(d.digits)[..|body|] == Pairs(d.digits);
    assert KeptPairs(d) == |body|;
    assert HeadByte(sign, Exponent(d)) == head;
  }
}
