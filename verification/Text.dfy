/**
 Decimal text: the parts of Go's `strconv` and `strings` packages that the
 decimal, date/time and interval code relies on, with the facts about them
 that the round-trip proofs need.
 */
module Text {
  import opened Options

  // ---------- powers of ten ----------

  function Pow10(n: nat): (p: nat)
    ensures p >= 1
  {
    if n == 0 then 1 else 10 * Pow10(n - 1)
  }

  lemma {:induction false} Pow10Add(a: nat, b: nat)
    ensures Pow10(a + b) == Pow10(a) * Pow10(b)
  {
    if b > 0 {
      Pow10Add(a, b - 1);
      MulShift(Pow10(a), Pow10(b - 1));
    }
  }

  lemma MulShift(x: int, y: int)
    ensures 10 * (x * y) == x * (10 * y)
  {}

  lemma {:induction false} Pow10Monotone(a: nat, b: nat)
    requires a <= b
    ensures Pow10(a) <= Pow10(b)
  {
    if a < b {
      Pow10Monotone(a, b - 1);
    }
  }

  // ---------- digits and numerals ----------

  predicate IsDigit(c: char) { '0' <= c <= '9' }

  predicate AllDigits(s: string) {
    forall i :: 0 <= i < |s| ==> IsDigit(s[i])
  }

  function DigitVal(c: char): (d: nat)
    requires IsDigit(c)
    ensures d < 10
  {
    c as int - '0' as int
  }

  function DigitChar(d: nat): (c: char)
    requires d < 10
    ensures IsDigit(c) && DigitVal(c) == d
  {
    ('0' as int + d) as char
  }

  lemma DigitCharVal(c: char)
    requires IsDigit(c)
    ensures DigitChar(DigitVal(c)) == c
  {}

  /** The number a string of decimal digits denotes. */
  function NatVal(s: string): nat
    requires AllDigits(s)
  {
    if s == "" then 0 else 10 * NatVal(s[..|s| - 1]) + DigitVal(s[|s| - 1])
  }

  /** The shortest decimal numeral of n. */
  function Itoa(n: nat): string {
    if n < 10 then [DigitChar(n)] else Itoa(n / 10) + [DigitChar(n % 10)]
  }

  /** The string of n zero characters. */
  function Zeros(n: nat): (s: string)
    ensures |s| == n && AllDigits(s)
    ensures forall i :: 0 <= i < n ==> s[i] == '0'
  {
    seq(n, _ => '0')
  }

  lemma {:induction false} ItoaDenotes(n: nat)
    ensures AllDigits(Itoa(n)) && NatVal(Itoa(n)) == n
    ensures |Itoa(n)| >= 1
    ensures n > 0 ==> Itoa(n)[0] != '0'
  {
    if n >= 10 {
      ItoaDenotes(n / 10);
      assert Itoa(n)[..|Itoa(n)| - 1] == Itoa(n / 10);
    } else {
      assert Itoa(n)[..0] == "";
    }
  }

  /** A number below 10^k is written with at most k digits, and no other is. */
  lemma {:induction false} ItoaLength(n: nat, k: nat)
    requires k >= 1
    ensures |Itoa(n)| <= k <==> n < Pow10(k)
  {
    assert Pow10(1) == 10 * Pow10(0);
    if n < 10 {
      Pow10Monotone(1, k);
    } else if k == 1 {
      assert |Itoa(n / 10)| >= 1 by { ItoaDenotes(n / 10); }
    } else {
      ItoaLength(n / 10, k - 1);
      assert n < 10 * Pow10(k - 1) <==> n / 10 < Pow10(k - 1);
    }
  }

  lemma {:induction false} NatValAppend(a: string, b: string)
    requires AllDigits(a) && AllDigits(b)
    ensures AllDigits(a + b)
    ensures NatVal(a + b) == NatVal(a) * Pow10(|b|) + NatVal(b)
  {
    if b == "" {
      assert a + b == a;
    } else {
      var init, last := b[..|b| - 1], b[|b| - 1];
      NatValAppend(a, init);
      assert (a + b)[..|a + b| - 1] == a + init;
      MulShift(NatVal(a), Pow10(|init|));
    }
  }

  lemma {:induction false} NatValZeros(n: nat)
    ensures NatVal(Zeros(n)) == 0
  {
    if n > 0 {
      NatValZeros(n - 1);
      assert Zeros(n)[..n - 1] == Zeros(n - 1);
    }
  }

  /** Leading zeros do not change what a numeral denotes. */
  lemma PadDenotes(n: nat, s: string)
    requires AllDigits(s)
    ensures AllDigits(Zeros(n) + s) && NatVal(Zeros(n) + s) == NatVal(s)
  {
    NatValAppend(Zeros(n), s);
    NatValZeros(n);
  }

  lemma {:induction false} NatValBound(s: string)
    requires AllDigits(s)
    ensures NatVal(s) < Pow10(|s|)
  {
    if s != "" {
      NatValBound(s[..|s| - 1]);
    }
  }

  /** Two digit strings of one length denote the same number only if they are equal. */
  lemma {:induction false} NatValInjective(a: string, b: string)
    requires AllDigits(a) && AllDigits(b) && |a| == |b|
    requires NatVal(a) == NatVal(b)
    ensures a == b
  {
    if a != "" {
      var i := |a| - 1;
      assert NatVal(a) == 10 * NatVal(a[..i]) + DigitVal(a[i]);
      assert NatVal(b) == 10 * NatVal(b[..i]) + DigitVal(b[i]);
      hide NatVal;
      LastDigit(NatVal(a[..i]), DigitVal(a[i]), NatVal(b[..i]), DigitVal(b[i]));
      NatValInjective(a[..i], b[..i]);
      DigitCharVal(a[i]);
      DigitCharVal(b[i]);
      assert a == a[..i] + [a[i]] && b == b[..i] + [b[i]];
    }
  }

  lemma LastDigit(x: nat, d: nat, y: nat, e: nat)
    requires d < 10 && e < 10 && 10 * x + d == 10 * y + e
    ensures x == y && d == e
  {}

  /** A digit string with a non-zero first digit is the numeral of what it denotes. */
  lemma {:induction false} ItoaOfNatVal(s: string)
    requires AllDigits(s) && |s| >= 1 && (|s| == 1 || s[0] != '0')
    ensures Itoa(NatVal(s)) == s
  {
    var i := |s| - 1;
    DigitCharVal(s[i]);
    assert s == s[..i] + [s[i]];
    if i == 0 {
      assert s[..0] == "";
    } else {
      ItoaOfNatVal(s[..i]);
      LeadingDigitPositive(s[..i]);
    }
  }

  lemma {:induction false} LeadingDigitPositive(s: string)
    requires AllDigits(s) && |s| >= 1 && s[0] != '0'
    ensures NatVal(s) > 0
  {
    if |s| > 1 {
      LeadingDigitPositive(s[..|s| - 1]);
    } else {
      DigitCharVal(s[0]);
    }
  }

  /** A digit string that is not all zeros denotes a positive number. */
  lemma {:induction false} NatValPositive(s: string, i: nat)
    requires AllDigits(s) && i < |s| && s[i] != '0'
    ensures NatVal(s) > 0
  {
    if i == |s| - 1 {
      DigitCharVal(s[i]);
    } else {
      NatValPositive(s[..|s| - 1], i);
    }
  }

  /** strconv.FormatInt in base 10. */
  function FormatInt(v: int): string { if v < 0 then "-" + Itoa(-v) else Itoa(v) }

  /** Zeros in front, up to a width. */
  function Padded(digits: string, width: int): string {
    if width > |digits| then Zeros(width - |digits|) + digits else digits
  }

  lemma PaddedDigits(n: nat, width: int)
    ensures AllDigits(Padded(Itoa(n), width)) && NatVal(Padded(Itoa(n), width)) == n
    ensures |Padded(Itoa(n), width)| >= 1
  {
    ItoaDenotes(n);
    if width > |Itoa(n)| {
      PadDenotes(width - |Itoa(n)|, Itoa(n));
    }
  }

  // ---------- strconv.ParseInt ----------

  /** Base-10 parse of an optionally signed numeral into a signed integer of the
      width whose largest value is `max`. */
  function ParseInt(s: string, max: nat): Option<int> {
    if s == "" then None
    else
      var signed := s[0] == '-' || s[0] == '+';
      var body := if signed then s[1..] else s;
      if body == "" || !AllDigits(body) then None
      else
        var v: int := NatVal(body);
        if s[0] == '-' then (if v <= max + 1 then Some(-v) else None)
        else if v <= max then Some(v) else None
  }

  lemma ParseDigits(s: string, max: nat)
    requires AllDigits(s) && s != "" && NatVal(s) <= max
    ensures ParseInt(s, max) == Some(NatVal(s))
  {
    assert IsDigit(s[0]);
  }

  // ---------- strings.Index, Split, TrimSpace ----------

  /** True if `pat` occurs in `s` at position `i`. */
  predicate OccursAt(s: string, pat: string, i: int) {
    0 <= i <= |s| - |pat| && s[i..i + |pat|] == pat
  }

  /** Position of the first occurrence of `pat` at or after `from`, or -1. */
  function IndexFrom(s: string, pat: string, from: nat): (r: int)
    requires from <= |s|
    ensures r == -1 || (from <= r && OccursAt(s, pat, r))
    ensures forall i :: from <= i <= |s| && (r == -1 || i < r) ==> !OccursAt(s, pat, i)
    decreases |s| - from
  {
    if OccursAt(s, pat, from) then from
    else if from == |s| then -1
    else IndexFrom(s, pat, from + 1)
  }

  function Index(s: string, pat: string): (r: int)
    ensures r == -1 || OccursAt(s, pat, r)
    ensures forall i :: 0 <= i <= |s| && (r == -1 || i < r) ==> !OccursAt(s, pat, i)
  {
    IndexFrom(s, pat, 0)
  }

  /** The first occurrence is unique, so it can be read off. */
  lemma IndexIs(s: string, pat: string, i: nat)
    requires OccursAt(s, pat, i)
    requires forall j :: 0 <= j < i ==> !OccursAt(s, pat, j)
    ensures Index(s, pat) == i
  {
    assert !(Index(s, pat) == -1 || i < Index(s, pat));
  }

  lemma CharOccurs(s: string, c: char, i: int)
    ensures OccursAt(s, [c], i) <==> 0 <= i < |s| && s[i] == c
  {
    if 0 <= i < |s| {
      assert s[i..i + 1] == [s[i]];
    }
  }

  /** Searching for a single character. */
  lemma CharIndexIs(s: string, c: char, i: nat)
    requires i < |s| && s[i] == c && c !in s[..i]
    ensures Index(s, [c]) == i
  {
    CharOccurs(s, c, i);
    forall j | 0 <= j < i ensures !OccursAt(s, [c], j) {
      CharOccurs(s, c, j);
      assert s[..i][j] == s[j];
    }
    IndexIs(s, [c], i);
  }

  lemma CharAbsent(s: string, c: char)
    requires c !in s
    ensures Index(s, [c]) == -1
  {
    CharOccurs(s, c, Index(s, [c]));
  }

  /** strings.Split on a one-character separator. */
  function Split(s: string, sep: char): (parts: seq<string>)
    ensures |parts| >= 1
    decreases |s|
  {
    var i := Index(s, [sep]);
    if i == -1 then [s] else [s[..i]] + Split(s[i + 1..], sep)
  }

  lemma SplitAbsent(s: string, sep: char)
    requires sep !in s
    ensures Split(s, sep) == [s]
  {
    CharAbsent(s, sep);
  }

  lemma SplitFirst(a: string, sep: char, rest: string)
    requires sep !in a
    ensures Split(a + [sep] + rest, sep) == [a] + Split(rest, sep)
  {
    var s := a + [sep] + rest;
    assert s[..|a|] == a;
    CharIndexIs(s, sep, |a|);
    assert s[|a| + 1..] == rest;
  }

  predicate IsSpace(c: char) {
    c == ' ' || '\t' <= c <= '\r' || c as int == 0x85 || c as int == 0xA0
  }

  function TrimSpace(s: string): string
    decreases |s|
  {
    if s == "" then ""
    else if IsSpace(s[0]) then TrimSpace(s[1..])
    else if IsSpace(s[|s| - 1]) then TrimSpace(s[..|s| - 1])
    else s
  }

  lemma TrimNothing(s: string)
    requires s != "" ==> !IsSpace(s[0]) && !IsSpace(s[|s| - 1])
    ensures TrimSpace(s) == s
  {}
}
