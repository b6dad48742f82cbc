/**
 The DM decimal number (dm/o.go): sign, base-10 digits in an even count, and an
 even power of ten. `DmDecimal` values are built from integers, from decimal
 text, or from the wire; this file has the value type, the constructors and the
 conversions back, and proves that they all denote the same number.
 */
module DecimalNumber {
  import opened Division
  import opened Options
  import opened Scale
  import opened Text

  const XDEC_MAX_PREC: int := 40
  const ORACLE_FLOAT_SCALE_MASK: int := 0x81

  datatype Error = DataTooLong | Fatal
  datatype Result<+T> = Ok(value: T) | Err(error: Error)

  datatype Decimal = Decimal(sign: int, weight: int, prec: int, scale: int, digits: string)

  /** What every constructor of the source leaves behind: a zero has no digits,
      anything else has complete digit pairs and an even weight. */
  ghost predicate WellFormed(d: Decimal) {
    && d.sign in {-1, 0, 1}
    && AllDigits(d.digits)
    && |d.digits| % 2 == 0
    && d.weight % 2 == 0
  }

  /** The normal form: non-zero first and last digit pair. */
  ghost predicate Canonical(d: Decimal) {
    && WellFormed(d)
    && if d.sign == 0 then d.digits == "" && d.weight == 0
       else
         && |d.digits| >= 2
         && d.digits[..2] != "00"
         && d.digits[|d.digits| - 2..] != "00"
  }

  /** The number a decimal stands for. */
  ghost function Value(d: Decimal): real
    requires AllDigits(d.digits)
  {
    d.sign as real * Magnitude(d.digits, d.weight)
  }

  ghost function Magnitude(digits: string, weight: int): real
    requires AllDigits(digits)
  {
    NatVal(digits) as real * Scale10(weight)
  }

  // ---------- normalisation of digits and weight ----------

  predicate IsOdd(v: int) { v % 2 != 0 }

  /** Drops trailing zeros, but never the last remaining character. */
  function Stripped(s: string): (t: string)
    requires s != ""
    ensures t != "" && |t| <= |s| && s[..|t|] == t
    ensures s[|t|..] == Zeros(|s| - |t|)
    ensures |t| > 1 ==> t[|t| - 1] != '0'
  {
    if |s| > 1 && s[|s| - 1] == '0' then
      var init := s[..|s| - 1];
      var t := Stripped(init);
      assert s[..|t|] == init[..|t|] && s[|t|..] == init[|t|..] + "0";
      t
    else s
  }

  /** Digit string and weight brought to complete pairs without trailing zeros. */
  function Normalised(str: string, weight: int): (string, int)
    requires str != ""
  {
    var t := Stripped(str);
    var w := weight + (|str| - |t|);
    var (t1, w1) := if IsOdd(w) then (t + "0", w - 1) else (t, w);
    (if IsOdd(|t1|) then "0" + t1 else t1, w1)
  }

  /** The scan for the last non-zero digit (dm/o.go:246-253 and 296-303). */
  method StripTrailingZeros(str: string) returns (t: string)
    requires str != ""
    ensures t == Stripped(str)
  {
    var i := |str| - 1;
    assert str[..i + 1] == str;
    while i > 0 && str[i] == '0'
      invariant 0 <= i < |str|
      invariant Stripped(str) == Stripped(str[..i + 1])
    {
      assert str[..i + 1][..i] == str[..i];
      i := i - 1;
    }
    t := str[..i + 1];
  }

  /** Trailing zeros move into the weight, then weight and digit count are made even. */
  method Normalise(str: string, weight: int) returns (digits: string, w: int)
    requires str != ""
    ensures (digits, w) == Normalised(str, weight)
  {
    hide Stripped;
    digits := StripTrailingZeros(str);
    w := weight + (|str| - |digits|);
    if IsOdd(w) {
      digits := digits + "0";
      w := w - 1;
    }
    if IsOdd(|digits|) {
      digits := "0" + digits;
    }
  }

  /** Appending k zeros is the same as raising the weight by k. */
  lemma AppendZeros(s: string, k: nat, weight: int)
    requires AllDigits(s)
    ensures AllDigits(s + Zeros(k))
    ensures Magnitude(s + Zeros(k), weight) == Magnitude(s, weight + k)
  {
    hide Scale10, NatVal, Pow10;
    NatValAppend(s, Zeros(k));
    NatValZeros(k);
    ScaleAdd(k, weight);
    ScaleNat(k);
    ProductAsReal(NatVal(s), Pow10(k));
    Associate(NatVal(s) as real, Scale10(k), Scale10(weight));
  }

  lemma ProductAsReal(x: int, y: int)
    ensures (x * y) as real == x as real * y as real
  {}

  lemma Associate(x: real, y: real, z: real)
    ensures (x * y) * z == x * (y * z)
  {}

  /** Normalisation makes both parts even and keeps the position of the first digit. */
  lemma NormalisedShape(str: string, weight: int)
    requires str != "" && AllDigits(str)
    ensures var (digits, w) := Normalised(str, weight);
      && AllDigits(digits) && |digits| % 2 == 0 && w % 2 == 0 && |digits| >= 2
      && weight - 1 <= w && (weight % 2 == 0 ==> weight <= w)
      && |digits| + w == |str| + weight + (|str| + weight) % 2
  {
    hide Stripped, Zeros;
    var t := Stripped(str);
    assert AllDigits(t) by { assert forall i :: 0 <= i < |t| ==> t[i] == str[..|t|][i]; }
    DigitsAround(t);
    hide AllDigits;
    EvenShape(|t|, weight + (|str| - |t|));
  }

  lemma EvenShape(length: nat, w: int)
    ensures var (l1, w1) := if IsOdd(w) then (length + 1, w - 1) else (length, w);
      var l2 := if IsOdd(l1) then l1 + 1 else l1;
      l2 % 2 == 0 && w1 % 2 == 0 && l2 + w1 == length + w + (length + w) % 2
  {}

  lemma DigitsAround(t: string)
    requires AllDigits(t)
    ensures AllDigits(t + "0") && AllDigits("0" + t) && AllDigits("0" + (t + "0"))
  {}

  /** Normalisation does not change the number. */
  lemma NormalisedDenotes(str: string, weight: int)
    requires str != "" && AllDigits(str)
    ensures var (digits, w) := Normalised(str, weight);
      AllDigits(digits) && Magnitude(digits, w) == Magnitude(str, weight)
  {
    hide Stripped, Magnitude;
    var t := Stripped(str);
    var k := |str| - |t|;
    assert str == t + Zeros(k);
    AppendZeros(t, k, weight);
    assert Zeros(1) == "0";
    if IsOdd(weight + k) {
      AppendZeros(t, 1, weight + k - 1);
      PadMagnitude(t + "0", weight + k - 1);
    } else {
      PadMagnitude(t, weight + k);
    }
  }

  lemma PadMagnitude(s: string, weight: int)
    requires AllDigits(s)
    ensures AllDigits("0" + s) && Magnitude("0" + s, weight) == Magnitude(s, weight)
  {
    PadDenotes(1, s);
    assert Zeros(1) == "0";
  }

  lemma NormalisedCanonical(str: string, weight: int)
    requires str != "" && AllDigits(str) && str[0] != '0'
    ensures var (digits, w) := Normalised(str, weight);
      |digits| >= 2 && digits[..2] != "00" && digits[|digits| - 2..] != "00"
  {
    var t := Stripped(str);
    assert t[0] == str[0] by { assert str[..|t|][0] == str[0]; }
    assert |t| > 1 ==> t[|t| - 1] != '0';
    hide Stripped, AllDigits;
    var w := weight + (|str| - |t|);
    var t1 := if IsOdd(w) then t + "0" else t;
    var digits := if IsOdd(|t1|) then "0" + t1 else t1;
    assert digits == Normalised(str, weight).0;
    PaddedEnds(t, t1, digits);
  }

  /** Padding to even length leaves a non-zero digit in the first and in the last pair. */
  lemma PaddedEnds(t: string, t1: string, digits: string)
    requires t != "" && t[0] != '0' && (|t| > 1 ==> t[|t| - 1] != '0')
    requires t1 == t || t1 == t + "0"
    requires digits == if IsOdd(|t1|) then "0" + t1 else t1
    ensures |digits| >= 2 && digits[..2] != "00" && digits[|digits| - 2..] != "00"
  {
    var n := |digits|;
    assert digits[0] != '0' || digits[1] != '0';
    assert digits[n - 1] != '0' || digits[n - 2] != '0';
    assert digits[..2][0] == digits[0] && digits[..2][1] == digits[1];
    assert digits[n - 2..][0] == digits[n - 2] && digits[n - 2..][1] == digits[n - 1];
  }

  // ---------- construction from an integer ----------

  predicate IsFloatScale(scale: int) { scale == ORACLE_FLOAT_SCALE_MASK }

  /** round(prec * 0.30103) + 1, rounding halves away from zero. */
  function FloatPrec(prec: int): int {
    var x := prec as real * 0.30103;
    1 + if x >= 0.0 then (x + 0.5).Floor else -((-x + 0.5).Floor)
  }

  function CheckPrec(len: int, prec: int): bool {
    !((prec > 0 && len > prec) || len > XDEC_MAX_PREC)
  }

  function Sign(n: int): int { if n > 0 then 1 else if n < 0 then -1 else 0 }

  method NewDecimalInt(n: int, prec: int, scale: int) returns (r: Result<Decimal>)
    ensures r.Ok? <==> n == 0 || ((prec <= 0 || |Itoa(Abs(n))| <= prec) && |Itoa(Abs(n))| <= 40)
    ensures r.Err? ==> r.error == DataTooLong
    ensures r.Ok? ==>
      && r.value == FromIntSpec(n, prec, scale)
  {
    var dprec, dscale := prec, scale;
    if IsFloatScale(scale) {
      dprec, dscale := FloatPrec(prec), -1;
    }
    var sign := Sign(n);
    if sign == 0 {
      return Ok(Decimal(0, 0, dprec, dscale, ""));
    }
    var str := FormatInt(n);
    if sign < 0 {
      str := str[1..];
    }
    assert str == Itoa(Abs(n));
    if !CheckPrec(|str|, prec) {
      return Err(DataTooLong);
    }
    ItoaDenotes(Abs(n));
    var digits, weight := Normalise(str, 0);
    return Ok(Decimal(sign, weight, dprec, dscale, digits));
  }

  function FromIntSpec(n: int, prec: int, scale: int): Decimal {
    var p := if IsFloatScale(scale) then FloatPrec(prec) else prec;
    var s := if IsFloatScale(scale) then -1 else scale;
    if n == 0 then Decimal(0, 0, p, s, "")
    else
      ItoaDenotes(Abs(n));
      var (digits, weight) := Normalised(Itoa(Abs(n)), 0);
      Decimal(Sign(n), weight, p, s, digits)
  }

  /** The precision and scale kept: the column's own, or, for scale 0x81 of a binary
      FLOAT, the nearest number of decimal digits and one more. */
  lemma KeptPrecision(n: int, prec: int, scale: int)
    ensures var d := FromIntSpec(n, prec, scale);
      if scale == 0x81 then d.scale == -1 && -0.5 <= (d.prec - 1) as real - prec as real * 0.30103 <= 0.5
      else d.prec == prec && d.scale == scale
  {
    ItoaDenotes(Abs(n));
    hide Normalised, Itoa;
  }

  /** `NewDecimalFromBigInt` */
  method NewDecimalFromBigInt(n: int) returns (r: Result<Decimal>)
    ensures r.Ok? <==> Abs(n) < Pow10(40)
    ensures r.Err? ==> r.error == DataTooLong
    ensures r.Ok? ==> Canonical(r.value) && Value(r.value) == n as real
    ensures r.Ok? ==> r.value.weight >= 0 && |r.value.digits| + r.value.weight <= 40
  {
    r := NewDecimalInt(n, |FormatInt(n)|, 0);
    FromIntDenotes(n, |FormatInt(n)|, 0);
    ItoaLength(Abs(n), XDEC_MAX_PREC);
    ItoaDenotes(Abs(n));
  }

  /** The integer constructor yields the normal form of its argument; the digits
      and zeros together are at most one longer than the numeral, to an even length. */
  lemma FromIntDenotes(n: int, prec: int, scale: int)
    ensures var d := FromIntSpec(n, prec, scale);
      && Canonical(d) && Value(d) == n as real
      && d.weight >= 0
      && (n != 0 ==> |d.digits| + d.weight == |Itoa(Abs(n))| + |Itoa(Abs(n))| % 2)
      && (|Itoa(Abs(n))| <= 40 ==> |d.digits| + d.weight <= 40)
  {
    hide FromIntSpec, Itoa, Canonical, Value;
    FromIntShape(n, prec, scale);
    FromIntValue(n, prec, scale);
  }

  lemma FromIntShape(n: int, prec: int, scale: int)
    ensures var d := FromIntSpec(n, prec, scale);
      && Canonical(d) && d.weight >= 0
      && (n != 0 ==> |d.digits| + d.weight == |Itoa(Abs(n))| + |Itoa(Abs(n))| % 2)
      && (|Itoa(Abs(n))| <= 40 ==> |d.digits| + d.weight <= 40)
  {
    hide Itoa, FromIntSpec, Canonical, AllDigits, WellFormed;
    if n == 0 {
      ZeroShape(prec, scale);
    } else {
      NonZeroShape(n, prec, scale);
    }
  }

  lemma ZeroShape(prec: int, scale: int)
    ensures var d := FromIntSpec(0, prec, scale); Canonical(d) && d.weight == 0 && d.digits == ""
  {}

  lemma NonZeroShape(n: int, prec: int, scale: int)
    requires n != 0
    ensures var d := FromIntSpec(n, prec, scale);
      && Canonical(d) && d.weight >= 0
      && |d.digits| + d.weight == |Itoa(Abs(n))| + |Itoa(Abs(n))| % 2
  {
    hide Itoa, Normalised, FloatPrec, AllDigits, FromIntSpec;
    ItoaDenotes(Abs(n));
    NormalisedShape(Itoa(Abs(n)), 0);
    NormalisedCanonical(Itoa(Abs(n)), 0);
    FieldsOfInt(n, prec, scale);
  }

  lemma FieldsOfInt(n: int, prec: int, scale: int)
    requires n != 0
    ensures Itoa(Abs(n)) != ""
    ensures var d := FromIntSpec(n, prec, scale);
      d.sign in {-1, 1} && (d.digits, d.weight) == Normalised(Itoa(Abs(n)), 0)
  {
    hide Itoa, Normalised, FloatPrec;
    ItoaDenotes(Abs(n));
  }

  lemma FromIntValue(n: int, prec: int, scale: int)
    ensures AllDigits(FromIntSpec(n, prec, scale).digits) && Value(FromIntSpec(n, prec, scale)) == n as real
  {
    assert AllDigits("");
    hide Itoa, Normalised, AllDigits, Magnitude;
    if n != 0 {
      ItoaMagnitude(Abs(n));
      ItoaDenotes(Abs(n));
      NormalisedDenotes(Itoa(Abs(n)), 0);
      SignTimes(n);
    }
  }

  lemma SignTimes(n: int)
    ensures Sign(n) as real * Abs(n) as real == n as real
  {}

  lemma ItoaMagnitude(n: nat)
    ensures AllDigits(Itoa(n)) && Magnitude(Itoa(n), 0) == n as real
  {
    ItoaDenotes(n);
    assert Scale10(0) == 1.0;
  }

  // ---------- construction from decimal text ----------

  /** Digits with at most one point: the texts that denote an unsigned number. */
  ghost predicate NumeralText(t: string) {
    var p := Index(t, ".");
    if p == -1 then t != "" && AllDigits(t)
    else |t| > 1 && AllDigits(t[..p]) && AllDigits(t[p + 1..])
  }

  /** The number such a text denotes. */
  ghost function TextMagnitude(t: string): real
    requires NumeralText(t)
  {
    var p := Index(t, ".");
    if p == -1 then Magnitude(t, 0)
    else Magnitude(t[..p] + t[p + 1..], -(|t| - p - 1))
  }

  /** The texts big.Float's Text('f', -1) produces: the integer part is a numeral. */
  ghost predicate PlainText(t: string) {
    && NumeralText(t)
    && var p := Index(t, ".");
       var ip := if p == -1 then t else t[..p];
       ip != "" && (ip[0] != '0' || |ip| == 1)
  }

  function DropLeadingZeros(s: string): (t: string)
    ensures |t| <= |s| && s[|s| - |t|..] == t && s[..|s| - |t|] == Zeros(|s| - |t|)
    ensures t != "" ==> t[0] != '0'
  {
    if s != "" && s[0] == '0' then DropLeadingZeros(s[1..]) else s
  }

  /** Takes the point out of a positive text (dm/o.go:275-293). */
  method RemovePoint(text: string) returns (str: string, weight: int)
    requires PlainText(text) && TextMagnitude(text) > 0.0
    ensures AllDigits(str) && str != "" && str[0] != '0'
    ensures Magnitude(str, weight) == TextMagnitude(text)
  {
    hide Magnitude;
    str, weight := text, 0;
    var point := Index(str, ".");
    if point != -1 {
      if str[0] == '0' {
        var i := 2;
        while i < |str| && str[i] == '0'
          invariant 2 <= i <= |str|
          invariant forall j :: 2 <= j < i ==> str[j] == '0'
        {
          i := i + 1;
        }
        LeadingZerosDropped(str, i);
        str := str[i..];
        weight := weight - (i - 2 + |str|);
      } else {
        weight := weight - (|str| - point - 1);
        str := str[..point] + str[point + 1..];
      }
    }
    NonZeroText(text, str, weight);
  }

  /** The branch of `newDecimal` for a big.Float (dm/o.go:265-312), on the text
      and sign of the number. */
  method NewDecimalText(sign: int, text: string, prec: int, scale: int) returns (d: Decimal)
    requires sign in {-1, 0, 1}
    requires sign < 0 ==> text != "" && text[0] == '-' && PlainText(text[1..]) && TextMagnitude(text[1..]) > 0.0
    requires sign > 0 ==> PlainText(text) && TextMagnitude(text) > 0.0
    ensures Canonical(d)
    ensures d.sign == sign
    ensures sign != 0 ==> Value(d) == sign as real * TextMagnitude(if sign < 0 then text[1..] else text)
    ensures d.prec == (if IsFloatScale(scale) then FloatPrec(prec) else prec)
    ensures d.scale == (if IsFloatScale(scale) then -1 else scale)
  {
    hide Normalised, PlainText, NumeralText, TextMagnitude, Magnitude;
    var dprec, dscale := prec, scale;
    if IsFloatScale(scale) {
      dprec, dscale := FloatPrec(prec), -1;
    }
    if sign == 0 {
      return Decimal(0, 0, dprec, dscale, "");
    }
    var str, weight := RemovePoint(if sign < 0 then text[1..] else text);
    var digits, w := Normalise(str, weight);
    NormalisedShape(str, weight);
    NormalisedDenotes(str, weight);
    NormalisedCanonical(str, weight);
    d := Decimal(sign, w, dprec, dscale, digits);
  }

  /** "0." and the zeros after it can be cut off a fraction. */
  lemma LeadingZerosDropped(str: string, i: nat)
    requires PlainText(str) && Index(str, ".") != -1 && str[0] == '0'
    requires 2 <= i <= |str| && forall j :: 2 <= j < i ==> str[j] == '0'
    ensures AllDigits(str[i..]) && Magnitude(str[i..], -(|str| - 2)) == TextMagnitude(str)
  {
    assert str[0] != '.' && Index(str, ".") == 1;
    hide NatVal, Index, Scale10, Zeros;
    var all := str[..1] + str[2..];
    assert TextMagnitude(str) == Magnitude(all, -(|str| - 2));
    assert AllDigits(str[i..]);
    assert all == Zeros(i - 1) + str[i..] by { ZerosAhead(str, all, i); }
    hide AllDigits, TextMagnitude;
    PadDenotes(i - 1, str[i..]);
  }

  lemma ZerosAhead(str: string, all: string, i: nat)
    requires 2 <= i <= |str| && str[0] == '0' && all == str[..1] + str[2..]
    requires forall j :: 2 <= j < i ==> str[j] == '0'
    ensures all == Zeros(i - 1) + str[i..]
  {}

  /** A text with a positive value leaves a digit string that starts with a
      non-zero digit. */
  lemma NonZeroText(source: string, str: string, weight: int)
    requires PlainText(source) && TextMagnitude(source) > 0.0
    requires AllDigits(str) && Magnitude(str, weight) == TextMagnitude(source)
    requires str == "" || str[0] != '0' || (str == source && Index(source, ".") == -1)
    ensures str != "" && str[0] != '0'
  {
    ZeroMagnitude(weight);
  }

  lemma ZeroMagnitude(weight: int)
    ensures Magnitude("", weight) == 0.0 && Magnitude("0", weight) == 0.0
  {
    assert "0"[..0] == "";
  }

  // ---------- printing ----------

  /** `String` (dm/o.go:129-158). */
  function ToString(d: Decimal): string
    requires WellFormed(d) && (d.sign != 0 ==> d.digits != "")
  {
    if d.sign == 0 then "0"
    else
      var body := WithPoint(d.digits, d.weight);
      var t := DropOneTrailingZero(DropOneLeadingZero(body));
      if d.sign < 0 then "-" + t else t
  }

  function WithPoint(digits: string, weight: int): (t: string)
    requires |digits| >= 2
    ensures |t| >= 2
  {
    if weight > 0 then digits + Zeros(weight)
    else if weight < 0 then
      var padded := if |digits| < -weight then Zeros(-weight - |digits| + 1) + digits else digits;
      var dot := |padded| + weight;
      padded[..dot] + "." + padded[dot..]
    else digits
  }

  function DropOneLeadingZero(t: string): string
    requires |t| >= 2
  {
    if t[0] == '0' && t[1] != '.' then t[1..] else t
  }

  function DropOneTrailingZero(t: string): string
    requires |t| >= 1
  {
    if t[|t| - 1] == '0' && '.' in t then t[..|t| - 1] else t
  }

  /** A numeral with the point at `p`, put together from its two parts. */
  lemma PointText(ip: string, fp: string)
    requires AllDigits(ip) && AllDigits(fp) && |ip| + |fp| >= 1
    ensures NumeralText(ip + "." + fp)
    ensures TextMagnitude(ip + "." + fp) == Magnitude(ip + fp, -|fp|)
  {
    var t := ip + "." + fp;
    assert '.' !in t[..|ip|] by { assert t[..|ip|] == ip; }
    CharIndexIs(t, '.', |ip|);
    assert t[..|ip|] == ip && t[|ip| + 1..] == fp;
  }

  lemma IntegerText(t: string)
    requires AllDigits(t) && t != ""
    ensures NumeralText(t) && TextMagnitude(t) == Magnitude(t, 0)
    ensures '.' !in t
  {
    CharAbsent(t, '.');
  }

  lemma WithPointDenotes(digits: string, weight: int)
    requires AllDigits(digits) && |digits| >= 2
    ensures var t := WithPoint(digits, weight);
      NumeralText(t) && TextMagnitude(t) == Magnitude(digits, weight)
  {
    hide Magnitude, NatVal, NumeralText, TextMagnitude;
    if weight > 0 {
      AppendZeros(digits, weight, 0);
      IntegerText(digits + Zeros(weight));
    } else if weight < 0 {
      var k := if |digits| < -weight then -weight - |digits| + 1 else 0;
      var padded := Zeros(k) + digits;
      PadManyMagnitude(k, digits, weight);
      assert k == 0 ==> padded == digits;
      var dot := |padded| + weight;
      PointText(padded[..dot], padded[dot..]);
      assert padded[..dot] + padded[dot..] == padded;
    } else {
      IntegerText(digits);
    }
  }

  lemma PadManyMagnitude(k: nat, s: string, weight: int)
    requires AllDigits(s)
    ensures AllDigits(Zeros(k) + s) && Magnitude(Zeros(k) + s, weight) == Magnitude(s, weight)
  {
    PadDenotes(k, s);
  }

  /** A numeral text is an integer part, and possibly a point and a fraction. */
  lemma SplitText(t: string) returns (ip: string, fp: string)
    requires NumeralText(t)
    ensures AllDigits(ip) && AllDigits(fp)
    ensures if '.' in t then t == ip + "." + fp && |ip| + |fp| >= 1 else t == ip && fp == "" && ip != ""
    ensures TextMagnitude(t) == Magnitude(ip + fp, -|fp|)
  {
    var p := Index(t, ".");
    if p == -1 {
      ip, fp := t, "";
      CharAbsentDigits(t);
      assert t + "" == t;
    } else {
      CharOccurs(t, '.', p);
      ip, fp := t[..p], t[p + 1..];
      assert t == ip + "." + fp;
    }
  }

  lemma CharAbsentDigits(t: string)
    requires AllDigits(t)
    ensures '.' !in t
  {}

  lemma DropLeadingDenotes(t: string)
    requires NumeralText(t) && |t| >= 2
    ensures var u := DropOneLeadingZero(t);
      && NumeralText(u) && TextMagnitude(u) == TextMagnitude(t)
      && u != "" && ('.' in u <==> '.' in t)
  {
    hide Magnitude, NatVal, NumeralText, TextMagnitude;
    var ip, fp := SplitText(t);
    if t[0] == '0' && t[1] != '.' {
      assert '.' in t ==> ip != "";
      assert ip[0] == '0';
      var rest := ip[1..];
      assert ip + fp == "0" + (rest + fp);
      PadMagnitude(rest + fp, -|fp|);
      if '.' in t {
        assert t[1..] == rest + "." + fp;
        PointText(rest, fp);
      } else {
        assert rest + fp == rest;
        IntegerText(rest);
      }
    }
  }

  lemma DropTrailingDenotes(t: string)
    requires NumeralText(t) && |t| >= 1
    requires '.' in t ==> |t| >= 3
    ensures var u := DropOneTrailingZero(t);
      NumeralText(u) && TextMagnitude(u) == TextMagnitude(t)
  {
    hide Magnitude, NatVal, NumeralText, TextMagnitude;
    var ip, fp := SplitText(t);
    if t[|t| - 1] == '0' && '.' in t {
      var rest := fp[..|fp| - 1];
      assert fp == rest + Zeros(1);
      assert t[..|t| - 1] == ip + "." + rest;
      PointText(ip, rest);
      AppendZeros(ip + rest, 1, -|fp|);
      assert (ip + rest) + Zeros(1) == ip + fp;
    }
  }

  /** The printed text denotes the number: an optional sign and a numeral. */
  lemma ToStringDenotes(d: Decimal)
    requires WellFormed(d) && (d.sign != 0 ==> d.digits != "")
    ensures var t := ToString(d);
      var body := if d.sign < 0 then t[1..] else t;
      && (d.sign < 0 ==> t != "" && t[0] == '-')
      && NumeralText(body)
      && Value(d) == (if d.sign < 0 then -1.0 else 1.0) * TextMagnitude(body)
  {
    if d.sign == 0 {
      IntegerText("0");
      assert NatVal("0") == 0 by { assert "0"[..0] == ""; }
    } else {
      var t0 := WithPoint(d.digits, d.weight);
      WithPointDenotes(d.digits, d.weight);
      DropLeadingDenotes(t0);
      var t1 := DropOneLeadingZero(t0);
      assert '.' in t1 ==> |t1| >= 3 by {
        if '.' in t1 { PointKeepsLength(d.digits, d.weight); }
      }
      DropTrailingDenotes(t1);
      var t := ToString(d);
      assert d.sign < 0 ==> t[1..] == DropOneTrailingZero(t1);
    }
  }

  lemma PointKeepsLength(digits: string, weight: int)
    requires AllDigits(digits) && |digits| >= 2
    requires '.' in DropOneLeadingZero(WithPoint(digits, weight))
    ensures |DropOneLeadingZero(WithPoint(digits, weight))| >= 3
  {
    var t := WithPoint(digits, weight);
    if weight >= 0 {
      CharAbsentDigits(t);
    }
  }

  // ---------- conversion to an integer ----------

  /** A real number with its fraction cut off. */
  ghost function Truncated(r: real): int {
    if r >= 0.0 then r.Floor else -(-r).Floor
  }

  /** `ToBigInt` (dm/o.go:61-87); None where SetString fails on an empty digit string. */
  function ToBigInt(d: Decimal): Option<int>
    requires WellFormed(d)
  {
    if d.sign == 0 then Some(0)
    else if d.digits == "" then None
    else
      var i1 := d.sign * NatVal(d.digits);
      if d.weight > 0 then Some(i1 * Pow10(d.weight))
      else if d.weight < 0 then Some(TruncDiv(i1, Pow10(-d.weight)))
      else Some(i1)
  }

  /** The integer conversion cuts the value off toward zero. */
  lemma ToBigIntTruncates(d: Decimal)
    requires WellFormed(d) && (d.sign != 0 ==> d.digits != "")
    ensures ToBigInt(d) == Some(Truncated(Value(d)))
  {
    if d.sign != 0 {
      MagnitudeFloor(d.digits, d.weight);
      var m := Magnitude(d.digits, d.weight);
      hide NatVal, Scale10, Pow10, Magnitude;
      SignedTruncation(d.sign, m);
      if d.weight < 0 {
        SignedQuo(d.sign, NatVal(d.digits), Pow10(-d.weight));
      } else {
        Associate3(d.sign, NatVal(d.digits), Pow10(d.weight));
      }
      assert Pow10(0) == 1 by { Pow10Zero(); }
    }
  }

  lemma Associate3(x: int, y: int, z: int)
    ensures (x * y) * z == x * (y * z)
  {}

  lemma Pow10Zero()
    ensures Pow10(0) == 1
  {}

  lemma SignedTruncation(sign: int, x: real)
    requires sign in {-1, 1} && x >= 0.0
    ensures Truncated(sign as real * x) == sign * x.Floor
  {
    if sign == -1 {
      assert sign as real * x == -x;
    }
  }

  lemma SignedQuo(sign: int, m: nat, p: nat)
    requires sign in {-1, 1} && p >= 1
    ensures TruncDiv(sign * m, p) == sign * (m / p)
  {
    if sign == -1 && m == 0 {
      assert 0 / p == 0;
    }
  }

  lemma MagnitudeFloor(digits: string, weight: int)
    requires AllDigits(digits)
    ensures Magnitude(digits, weight) >= 0.0
    ensures Magnitude(digits, weight).Floor ==
      if weight >= 0 then NatVal(digits) * Pow10(weight) else NatVal(digits) / Pow10(-weight)
  {
    hide NatVal, Scale10, Pow10;
    var m := NatVal(digits);
    if weight >= 0 {
      ScaleNat(weight);
      ProductAsReal(m, Pow10(weight));
    } else {
      InverseScale(-weight);
      QuotientFloor(m, Pow10(-weight), Scale10(weight));
    }
  }

  lemma InverseScale(n: nat)
    ensures Scale10(0 - n) * Pow10(n) as real == 1.0
  {
    ScaleAdd(0 - n, n);
    ScaleNat(n);
    assert Scale10(0) == 1.0;
  }

  /** Multiplying by the inverse of p and cutting off the fraction divides by p. */
  lemma QuotientFloor(m: nat, p: nat, inverse: real)
    requires p >= 1 && inverse > 0.0 && inverse * p as real == 1.0
    ensures m as real * inverse >= 0.0
    ensures (m as real * inverse).Floor == m / p
  {
    var q, r := m / p, m % p;
    assert m == q * p + r;
    CancelInverse(q, p, inverse);
    SumTimes((q * p) as real, r as real, inverse);
    MulLess(r as real, p as real, inverse);
    FloorIs(m as real * inverse, q, r as real * inverse);
  }

  lemma FloorIs(x: real, q: int, frac: real)
    requires 0.0 <= frac < 1.0 && x == q as real + frac
    ensures x.Floor == q
  {}

  lemma CancelInverse(q: int, p: nat, inverse: real)
    requires p >= 1 && inverse * p as real == 1.0
    ensures (q * p) as real * inverse == q as real
  {
    ProductAsReal(q, p);
    Associate(q as real, p as real, inverse);
  }

  lemma SumTimes(x: real, y: real, k: real)
    ensures (x + y) * k == x * k + y * k
  {}

  /** An integer survives the trip through the decimal form. */
  lemma IntRoundTrip(n: int, prec: int, scale: int)
    ensures Canonical(FromIntSpec(n, prec, scale))
    ensures ToBigInt(FromIntSpec(n, prec, scale)) == Some(n)
  {
    hide FromIntSpec, ToBigInt, Value, Truncated;
    FromIntDenotes(n, prec, scale);
    ToBigIntTruncates(FromIntSpec(n, prec, scale));
    TruncatedWhole(n);
  }

  lemma TruncatedWhole(n: int)
    ensures Truncated(n as real) == n
  {}
}
