/**
 Year-month intervals (dm/r.go): printing, parsing, conversion between the three
 kinds, and the wire form.
 */
module IntervalYM {
  import opened Bytes
  import opened Division
  import opened IntervalScale
  import opened LittleEndian
  import opened Options
  import opened Sequences
  import opened Text

  const QUA_Y: int := 0
  const QUA_YM: int := 1
  const QUA_MO: int := 2

  datatype YM = YM(kind: int, leadScale: int, years: int, months: int, scaleForSvr: int)

  // ---------- printing ----------

  /** The padding loops of `String`. */
  method Pad(digits: string, width: int) returns (r: string)
    ensures r == Padded(digits, width)
  {
    r := digits;
    if width > |digits| {
      var l := |digits|;
      var destLen := width;
      while destLen > l
        invariant l <= destLen <= width
        invariant r == Zeros(width - destLen) + digits
      {
        r := "0" + r;
        assert "0" + (Zeros(width - destLen) + digits) == Zeros(width - destLen + 1) + digits;
        destLen := destLen - 1;
      }
    }
  }

  /** The fields as they are printed: `years`, `years-months` or `months`. */
  function Inner(ym: YM): string {
    if ym.kind == QUA_Y then Padded(Itoa(Abs(ym.years)), ym.leadScale)
    else if ym.kind == QUA_YM then Padded(Itoa(Abs(ym.years)), ym.leadScale) + "-" + Padded(Itoa(Abs(ym.months)), 2)
    else Padded(Itoa(Abs(ym.months)), ym.leadScale)
  }

  function Quoted(ym: YM): string { "'" + Inner(ym) + "'" }

  predicate PrintsMinus(ym: YM) {
    (ym.kind != QUA_MO && ym.years < 0) || (ym.kind != QUA_Y && ym.months < 0)
  }

  function Unit(ym: YM): string {
    if ym.kind == QUA_MO then "MONTH(" + FormatInt(ym.leadScale) + ")"
    else "YEAR(" + FormatInt(ym.leadScale) + ")"
  }

  function SignText(ym: YM): string { if PrintsMinus(ym) then "-" else "" }

  function Tail(ym: YM): string { if ym.kind == QUA_YM then " TO MONTH" else "" }

  function Printed(ym: YM): string {
    "INTERVAL " + SignText(ym) + Quoted(ym) + " " + Unit(ym) + Tail(ym)
  }

  /** `String` */
  method ToString(ym: YM) returns (str: string)
    requires ym.kind in {QUA_Y, QUA_YM, QUA_MO}
    ensures str == Printed(ym)
  {
    hide Padded, Itoa, FormatInt;
    var body := PrintBody(ym);
    str := "INTERVAL ";
    if PrintsMinus(ym) {
      str := str + "-";
    } else {
      assert str + "" == str;
    }
    str := str + ("'" + body + "'") + " " + Unit(ym);
    if ym.kind == QUA_YM {
      str := str + " TO MONTH";
    } else {
      assert str + "" == str;
    }
  }

  /** The digits between the quotes. */
  method PrintBody(ym: YM) returns (body: string)
    requires ym.kind in {QUA_Y, QUA_YM, QUA_MO}
    ensures Quoted(ym) == "'" + body + "'"
  {
    hide Itoa;
    if ym.kind == QUA_Y {
      body := Pad(Itoa(Abs(ym.years)), ym.leadScale);
    } else if ym.kind == QUA_YM {
      var year := Pad(Itoa(Abs(ym.years)), ym.leadScale);
      var month := Itoa(Abs(ym.months));
      if |month| < 2 {
        ItoaDenotes(Abs(ym.months));
        assert "0" == Zeros(1);
        month := "0" + month;
      }
      body := year + "-" + month;
    } else {
      body := Pad(Itoa(Abs(ym.months)), ym.leadScale);
    }
  }

  /** The digits of n, with zeros in front up to a width. */
  ghost predicate Fills(s: string, n: nat, width: int) {
    AllDigits(s) && NatVal(s) == n && |s| == if width > |Itoa(n)| then width else |Itoa(n)|
  }

  lemma FillsUnique(s: string, n: nat, width: int)
    requires Fills(s, n, width)
    ensures s == Padded(Itoa(n), width)
  {
    PaddedDigits(n, width);
    hide NatVal, Itoa;
    NatValInjective(s, Padded(Itoa(n), width));
  }

  /** The text of each kind (0 YEAR, 1 YEAR TO MONTH, 2 MONTH): the sign in front of the
      quotes, the leading field as wide as the lead scale, and the months behind the
      years two digits wide. */
  lemma PrintedSpelled(ym: YM, years: string, months: string, lead: string)
    requires 0 <= ym.kind <= 2 && ym.leadScale >= 0 && Fills(lead, ym.leadScale, 1)
    requires Fills(years, Abs(ym.years), ym.leadScale)
    requires Fills(months, Abs(ym.months), if ym.kind == 1 then 2 else ym.leadScale)
    ensures var sign := if (ym.kind != 2 && ym.years < 0) || (ym.kind != 0 && ym.months < 0) then "-" else "";
      Printed(ym) ==
        if ym.kind == 0 then "INTERVAL " + sign + "'" + years + "' YEAR(" + lead + ")"
        else if ym.kind == 1 then "INTERVAL " + sign + "'" + years + "-" + months + "' YEAR(" + lead + ") TO MONTH"
        else "INTERVAL " + sign + "'" + months + "' MONTH(" + lead + ")"
  {
    var sign := SignText(ym);
    FillsUnique(years, Abs(ym.years), ym.leadScale);
    FillsUnique(months, Abs(ym.months), if ym.kind == 1 then 2 else ym.leadScale);
    FillsUnique(lead, ym.leadScale, 1);
    ItoaDenotes(ym.leadScale);
    assert lead == FormatInt(ym.leadScale);
    hide Itoa, NatVal, Padded, FormatInt, Fills;
    Spliced("INTERVAL " + sign, Inner(ym), if ym.kind == 2 then "MONTH(" else "YEAR(", lead, Tail(ym));
    Endings();
    hide Printed, Quoted, Unit;
    if ym.kind == 1 {
      Dashed("INTERVAL " + sign + "'", years, months, "' YEAR(");
      Closed("INTERVAL " + sign + "'" + (years + "-" + months) + "' YEAR(" + lead, ")", " TO MONTH", ") TO MONTH");
    } else if ym.kind == 0 {
      assert Tail(ym) == "";
      var line := "INTERVAL " + sign + "'" + years + "' YEAR(" + lead + ")";
      assert line + "" == line;
    } else {
      assert Tail(ym) == "";
      var line := "INTERVAL " + sign + "'" + months + "' MONTH(" + lead + ")";
      assert line + "" == line;
    }
  }

  lemma Spliced(front: string, inner: string, unit: string, lead: string, tail: string)
    ensures front + ("'" + inner + "'") + " " + (unit + lead + ")") + tail
      == front + "'" + inner + ("' " + unit) + lead + ")" + tail
  {
    assert "'" + " " + unit == "' " + unit;
  }

  lemma Endings()
    ensures "' " + "YEAR(" == "' YEAR(" && "' " + "MONTH(" == "' MONTH("
  {}

  lemma Dashed(front: string, years: string, months: string, back: string)
    ensures front + (years + "-" + months) + back == front + years + "-" + months + back
  {}

  lemma Closed(front: string, a: string, b: string, c: string)
    requires c == a + b
    ensures front + a + b == front + c
  {}

  // ---------- parsing ----------

  function ToUpper(s: string): (r: string)
    ensures |r| == |s|
  {
    seq(|s|, i requires 0 <= i < |s| => if 'a' <= s[i] <= 'z' then (s[i] as int - 32) as char else s[i])
  }

  predicate HasPrefix(s: string, p: string) { p <= s }

  function LastIndex(s: string, c: char): (r: int)
    ensures -1 <= r < |s|
  {
    if s == "" then -1 else if s[|s| - 1] == c then |s| - 1 else LastIndex(s[..|s| - 1], c)
  }

  /** `getLeadPrec` */
  function GetLeadPrec(str: string, startIndex: nat): Option<int>
    requires startIndex <= |str|
  {
    var left := Index(str[startIndex..], "(");
    var right := Index(str[startIndex..], ")");
    if left == -1 && right == -1 then Some(QuotedDigits(str))
    else if left != -1 && right != -1 && right > left + 1 then
      ParseInt(TrimSpace(str[startIndex + left + 1..startIndex + right]), INT32_MAX)
    else None
  }

  /** Without a lead scale in the text, it is the number of digits before any '-'. */
  function QuotedDigits(str: string): int {
    var l := Index(str, "'");
    var r := if l != -1 then Index(str[l + 1..], "'") else -1;
    var data := if r != -1 then TrimSpace(str[l + 1..l + 1 + r]) else "";
    if data == "" then 2
    else
      var unsigned := if data[0] == '+' || data[0] == '-' then TrimSpace(data[1..]) else data;
      var end := Index(unsigned, "-");
      if end != -1 then end else |unsigned|
  }

  predicate IsQuoted(s: string) { |s| >= 2 && s[0] == '\'' && s[|s| - 1] == '\'' }

  /** math.Pow10 as an integer, for the lead scales a 4-bit field can hold. */
  function Bound(leadScale: int): nat { if leadScale < 0 then 0 else Pow10(leadScale) }

  predicate WithinLead(v: int, leadScale: int) {
    1 - Bound(leadScale) <= v <= Bound(leadScale) - 1
  }

  /** `getTimeValue`; None where the source returns an error or indexes out of range. */
  function GetTimeValue(sub: string, kind: int, leadScale: int): Option<(int, int)> {
    if sub == "" || sub == "'" then None
    else
      var quoted1 := IsQuoted(sub);
      var s1 := if quoted1 then TrimSpace(sub[1..|sub| - 1]) else sub;
      var negative := Index(s1, "-") == 0;
      var s2 := if negative || Index(s1, "+") == 0 then s1[1..] else s1;
      if s2 == "" || s2 == "'" then None
      else
        var quoted2 := IsQuoted(s2);
        var s3 := if quoted2 then TrimSpace(s2[1..|s2| - 1]) else s2;
        if !quoted1 && !quoted2 then None else TimeFields(s3, kind, leadScale, negative)
  }

  function TimeFields(s: string, kind: int, leadScale: int, negative: bool): Option<(int, int)> {
    var dash := LastIndex(s, '-');
    var first := if dash <= 0 then s else s[..dash];
    var second := if dash <= 0 then "" else s[dash + 1..];
    var sign := if negative then -1 else 1;
    match ParseInt(first, INT32_MAX)
    case None => None
    case Some(a) =>
      if kind == QUA_YM then
        match (if second == "" then Some(0) else ParseInt(second, INT32_MAX))
        case None => None
        case Some(b) => if WithinLead(sign * a, leadScale) then Some((sign * a, sign * b)) else None
      else if !WithinLead(sign * a, leadScale) then None
      else if kind == QUA_Y then Some((sign * a, 0))
      else Some((0, sign * a))
  }

  /** `checkScale` */
  predicate ScaleFits(kind: int, years: int, months: int, prec: int) {
    if kind == QUA_Y then prec >= |Itoa(Abs(years))|
    else if kind == QUA_YM then prec >= |Itoa(Abs(years))| && Abs(months) <= 11
    else kind == QUA_MO ==> prec >= |Itoa(Abs(months))|
  }

  /** The check by the size of the fields: the leading one below ten to the lead scale,
      and at most eleven months behind the years. */
  lemma ScaleFitsMeans(kind: int, years: int, months: int, prec: nat)
    requires 0 <= kind <= 2 && prec >= 1
    ensures ScaleFits(kind, years, months, prec)
      <==> Abs(if kind == 2 then months else years) < Pow10(prec) && (kind == 1 ==> -11 <= months <= 11)
  {
    ItoaLength(Abs(years), prec);
    ItoaLength(Abs(months), prec);
    hide Itoa, Pow10;
  }

  function ServerScale(kind: int, leadScale: int): int { kind * 0x100 + leadScale * 0x10 }

  /** The kind of interval the unit words name, and where the lead unit stands. */
  function KindOf(str: string): Option<(int, nat)> {
    var yearId, monthId, toId := Index(str, "YEAR"), Index(str, "MONTH"), Index(str, "TO");
    if toId == -1 then
      if yearId != -1 && monthId == -1 then Some((QUA_Y, yearId))
      else if monthId != -1 && yearId == -1 then Some((QUA_MO, monthId))
      else None
    else if yearId == -1 || monthId == -1 then None
    else Some((QUA_YM, yearId))
  }

  /** `parseIntervYMString`; every error, and every recovered panic, is None. */
  function Parsed(text: string): Option<YM> {
    var str := ToUpper(TrimSpace(text));
    var ret := Split(str, ' ');
    if |ret| < 3 || ret[0] != "INTERVAL" || !(HasPrefix(ret[2], "YEAR") || HasPrefix(ret[2], "MONTH")) then None
    else
      match KindOf(str)
      case None => None
      case Some((kind, at)) =>
        match GetLeadPrec(str, at)
        case None => None
        case Some(lead) =>
          match GetTimeValue(ret[1], kind, lead)
          case None => None
          case Some((years, months)) =>
            if ScaleFits(kind, years, months, lead)
            then Some(YM(kind, lead, years, months, ServerScale(kind, lead)))
            else None
  }

  // ---------- parsing what was printed ----------

  /** An interval of a kind: fields of the kind only, of any sign, within the lead
      scale and the integer width. */
  ghost predicate WellFormed(ym: YM) {
    && ym.kind in {QUA_Y, QUA_YM, QUA_MO}
    && 1 <= ym.leadScale <= 15
    && (ym.kind == QUA_Y ==> ym.months == 0)
    && (ym.kind == QUA_MO ==> ym.years == 0)
    && Abs(ym.years) <= INT32_MAX && Abs(ym.months) <= INT32_MAX
    && ScaleFits(ym.kind, ym.years, ym.months, ym.leadScale)
    && ym.scaleForSvr == ServerScale(ym.kind, ym.leadScale)
  }

  ghost predicate OneSign(ym: YM) {
    (ym.years >= 0 && ym.months >= 0) || (ym.years <= 0 && ym.months <= 0)
  }

  lemma OccursChar(s: string, pat: string, j: int, k: nat)
    requires k < |pat|
    ensures OccursAt(s, pat, j) ==> 0 <= j + k < |s| && s[j + k] == pat[k]
  {
    if OccursAt(s, pat, j) {
      assert s[j..j + |pat|][k] == s[j + k];
    }
  }

  lemma PrefixMember(s: string, m: nat, n: nat)
    requires m < n <= |s|
    ensures s[m] in s[..n]
  {
    assert s[..n][m] == s[m];
  }

  /** `pat` cannot start before i if one of its characters does not occur soon enough. */
  lemma FirstAt(s: string, pat: string, i: nat, k: nat)
    requires OccursAt(s, pat, i) && k < |pat|
    requires pat[k] !in s[..i + k]
    ensures Index(s, pat) == i
  {
    forall j | 0 <= j < i ensures !OccursAt(s, pat, j) {
      OccursChar(s, pat, j, k);
      PrefixMember(s, j + k, i + k);
    }
    IndexIs(s, pat, i);
  }

  lemma NowhereWithout(s: string, pat: string, k: nat)
    requires k < |pat| && pat[k] !in s
    ensures Index(s, pat) == -1
  {
    OccursChar(s, pat, Index(s, pat), k);
  }

  /** Everything between "INTERVAL " and the unit: optional sign, quotes, digits, dash. */
  predicate BodyText(s: string) {
    forall i :: 0 <= i < |s| ==> IsDigit(s[i]) || s[i] == '-' || s[i] == '\''
  }

  function Body(ym: YM): string { SignText(ym) + Quoted(ym) }

  lemma BodyIsBodyText(ym: YM)
    requires ym.kind in {QUA_Y, QUA_YM, QUA_MO}
    ensures BodyText(Body(ym)) && |Body(ym)| >= 3
  {
    hide Padded, Itoa;
    PaddedDigits(Abs(ym.years), ym.leadScale);
    PaddedDigits(Abs(ym.months), ym.leadScale);
    PaddedDigits(Abs(ym.months), 2);
  }

  /** Characters a printed interval is made of leave upper-casing and trimming idle. */
  lemma NoLowerCase(s: string)
    requires forall i :: 0 <= i < |s| ==> !('a' <= s[i] <= 'z')
    ensures ToUpper(s) == s
  {}

  predicate Plain(s: string) {
    forall i :: 0 <= i < |s| ==> !('a' <= s[i] <= 'z')
  }

  lemma PlainAppend(a: string, b: string)
    requires Plain(a) && Plain(b)
    ensures Plain(a + b)
  {}

  lemma BodyPlain(s: string)
    requires BodyText(s)
    ensures Plain(s)
  {}

  lemma LeadText(lead: int)
    requires 1 <= lead <= 15
    ensures AllDigits(FormatInt(lead)) && |FormatInt(lead)| >= 1 && NatVal(FormatInt(lead)) == lead
    ensures ParseInt(TrimSpace(FormatInt(lead)), INT32_MAX) == Some(lead)
  {
    ItoaDenotes(lead);
    TrimNothing(Itoa(lead));
    ParseDigits(Itoa(lead), INT32_MAX);
  }

  // The line a printed interval is, over its parts.

  function UnitText(word: string, lead: string): string { word + "(" + lead + ")" }

  function Front(body: string): string { "INTERVAL " + body + " " }

  function Line(body: string, word: string, lead: string, tail: string): string {
    Front(body) + UnitText(word, lead) + tail
  }

  predicate LineParts(body: string, word: string, lead: string, tail: string) {
    BodyText(body) && AllDigits(lead) && word in {"YEAR", "MONTH"} && tail in {"", " TO MONTH"}
  }

  lemma WordsPlain()
    ensures Plain("INTERVAL ") && Plain(" ") && Plain(" TO MONTH")
    ensures Plain("YEAR") && Plain("MONTH") && Plain("(") && Plain(")") && Plain("")
  {}

  lemma LinePlain(body: string, word: string, lead: string, tail: string)
    requires LineParts(body, word, lead, tail)
    ensures Plain(Line(body, word, lead, tail))
  {
    WordsPlain();
    BodyPlain(body);
    assert Plain(lead);
    hide Plain, BodyText, AllDigits;
    PlainAppend(word, "(");
    PlainAppend(word + "(", lead);
    PlainAppend(word + "(" + lead, ")");
    PlainAppend("INTERVAL ", body);
    PlainAppend("INTERVAL " + body, " ");
    PlainAppend(Front(body), UnitText(word, lead));
    PlainAppend(Front(body) + UnitText(word, lead), tail);
  }

  lemma LineEnds(body: string, word: string, lead: string, tail: string)
    requires tail in {"", " TO MONTH"}
    ensures var s := Line(body, word, lead, tail); s != "" && s[0] == 'I' && s[|s| - 1] in {')', 'H'}
  {}

  lemma LineTrimmed(body: string, word: string, lead: string, tail: string)
    requires LineParts(body, word, lead, tail)
    ensures ToUpper(TrimSpace(Line(body, word, lead, tail))) == Line(body, word, lead, tail)
  {
    LineEnds(body, word, lead, tail);
    LinePlain(body, word, lead, tail);
    hide Line, LineParts, TrimSpace;
    TrimNothing(Line(body, word, lead, tail));
    NoLowerCase(Line(body, word, lead, tail));
  }

  lemma NoSpaces(body: string, word: string, lead: string)
    requires LineParts(body, word, lead, "")
    ensures ' ' !in body && ' ' !in UnitText(word, lead) && ' ' !in "INTERVAL"
  {}

  lemma SplitLine(body: string, word: string, lead: string, tail: string)
    requires LineParts(body, word, lead, tail)
    ensures var ret := Split(Line(body, word, lead, tail), ' ');
      |ret| >= 3 && ret[0] == "INTERVAL" && ret[1] == body && ret[2] == UnitText(word, lead)
  {
    NoSpaces(body, word, lead);
    SplitThree("INTERVAL", body, UnitText(word, lead), tail);
    assert "INTERVAL" + " " + body + " " == Front(body);
  }

  lemma SplitThree(a: string, b: string, c: string, tail: string)
    requires ' ' !in a && ' ' !in b && ' ' !in c && (tail == "" || tail[0] == ' ')
    ensures var ret := Split(a + " " + b + " " + c + tail, ' ');
      |ret| >= 3 && ret[0] == a && ret[1] == b && ret[2] == c
  {
    hide Split;
    assert a + " " + b + " " + c + tail == a + " " + (b + " " + (c + tail));
    SplitFirst(a, ' ', b + " " + (c + tail));
    SplitFirst(b, ' ', c + tail);
    if tail == "" {
      assert c + tail == c;
      SplitAbsent(c, ' ');
    } else {
      assert c + tail == c + [' '] + tail[1..];
      SplitFirst(c, ' ', tail[1..]);
    }
  }

  // The unit words stand where the parser looks for them.

  lemma FrontLetters(body: string)
    requires BodyText(body)
    ensures 'Y' !in Front(body) && 'M' !in Front(body) && 'O' !in Front(body)
  {}

  lemma LeadLetters(lead: string)
    requires AllDigits(lead)
    ensures 'Y' !in lead && 'M' !in lead && 'O' !in lead
  {}

  lemma KindYear(front: string, lead: string)
    requires 'Y' !in front && 'M' !in front && 'O' !in front
    requires 'Y' !in lead && 'M' !in lead && 'O' !in lead
    ensures KindOf(front + UnitText("YEAR", lead)) == Some((QUA_Y, |front|))
  {
    var s, n := front + UnitText("YEAR", lead), |front|;
    assert s[..n] == front && s[n..n + 4] == "YEAR";
    assert 'M' !in s && 'O' !in s;
    hide Index, UnitText;
    FirstAt(s, "YEAR", n, 0);
    NowhereWithout(s, "MONTH", 0);
    NowhereWithout(s, "TO", 1);
  }

  lemma KindMonth(front: string, lead: string)
    requires 'Y' !in front && 'M' !in front && 'O' !in front
    requires 'Y' !in lead && 'M' !in lead && 'O' !in lead
    ensures KindOf(front + UnitText("MONTH", lead)) == Some((QUA_MO, |front|))
  {
    var s, n := front + UnitText("MONTH", lead), |front|;
    assert s[..n] == front && s[n..n + 5] == "MONTH";
    assert 'Y' !in s;
    NoTo(front, lead);
    assert s == front + "MONTH(" + lead + ")";
    hide Index, UnitText;
    FirstAt(s, "MONTH", n, 0);
    NowhereWithout(s, "YEAR", 0);
  }

  lemma KindYearToMonth(front: string, lead: string)
    requires 'Y' !in front && 'M' !in front && 'O' !in front
    requires 'Y' !in lead && 'M' !in lead && 'O' !in lead
    ensures KindOf(front + UnitText("YEAR", lead) + " TO MONTH") == Some((QUA_YM, |front|))
  {
    var s, n := front + UnitText("YEAR", lead) + " TO MONTH", |front|;
    var t := n + 5 + |lead| + 2;
    assert s[..n] == front && s[n..n + 4] == "YEAR";
    assert s[t..t + 2] == "TO" && s[t + 3..t + 8] == "MONTH";
    assert s[..t + 1] == front + UnitText("YEAR", lead) + " T";
    assert s[..t + 3] == front + UnitText("YEAR", lead) + " TO ";
    assert 'O' !in s[..t + 1] && 'M' !in s[..t + 3];
    hide Index, UnitText;
    FirstAt(s, "YEAR", n, 0);
    FirstAt(s, "TO", t, 1);
    FirstAt(s, "MONTH", t + 3, 0);
  }

  /** In "... MONTH(n)" the only O follows an M. */
  lemma NoTo(front: string, lead: string)
    requires 'O' !in front && 'O' !in lead
    ensures Index(front + "MONTH(" + lead + ")", "TO") == -1
  {
    var s := front + "MONTH(" + lead + ")";
    var r := Index(s, "TO");
    OccursChar(s, "TO", r, 0);
    OccursChar(s, "TO", r, 1);
    assert forall i :: 0 <= i < |s| && s[i] == 'O' ==> i == |front| + 1;
    assert s[|front|] == 'M';
  }

  /** The lead scale is read back from its parentheses. */
  lemma LeadRead(front: string, word: string, lead: string, tail: string)
    requires word in {"YEAR", "MONTH"} && AllDigits(lead) && lead != ""
    ensures GetLeadPrec(front + UnitText(word, lead) + tail, |front|) == ParseInt(TrimSpace(lead), INT32_MAX)
  {
    hide TrimSpace, ParseInt, Index, QuotedDigits;
    var s, n := front + UnitText(word, lead) + tail, |front|;
    var u := s[n..];
    assert u == word + "(" + lead + ")" + tail;
    var r := |word| + 1 + |lead|;
    assert u[..|word|] == word;
    assert u[..r] == word + "(" + lead;
    assert ')' !in u[..r];
    CharIndexIs(u, '(', |word|);
    CharIndexIs(u, ')', r);
    assert s[n + |word| + 1..n + r] == lead;
  }

  // The quoted fields.

  predicate FieldText(inner: string) {
    |inner| >= 1 && IsDigit(inner[0]) && IsDigit(inner[|inner| - 1])
  }

  lemma PlainFieldStart(inner: string)
    requires FieldText(inner)
    ensures TrimSpace(inner) == inner && !IsQuoted(inner)
    ensures Index(inner, "-") != 0 && Index(inner, "+") != 0
  {
    TrimNothing(inner);
    CharOccurs(inner, '-', 0);
    CharOccurs(inner, '+', 0);
  }

  lemma TimeValueUnsigned(inner: string, kind: int, lead: int)
    requires FieldText(inner)
    ensures GetTimeValue("'" + inner + "'", kind, lead) == TimeFields(inner, kind, lead, false)
  {
    hide TimeFields, Index, TrimSpace;
    var sub := "'" + inner + "'";
    assert sub[1..|sub| - 1] == inner;
    PlainFieldStart(inner);
  }

  lemma TimeValueNegative(inner: string, kind: int, lead: int)
    requires FieldText(inner)
    ensures GetTimeValue("-'" + inner + "'", kind, lead) == TimeFields(inner, kind, lead, true)
  {
    hide TimeFields, TrimSpace;
    var sub := "-'" + inner + "'";
    CharIndexIs(sub, '-', 0);
    hide Index;
    var rest := sub[1..];
    assert rest == "'" + inner + "'";
    assert rest[1..|rest| - 1] == inner;
    PlainFieldStart(inner);
  }

  lemma {:induction false} LastIndexNone(s: string, c: char)
    requires c !in s
    ensures LastIndex(s, c) == -1
  {
    if s != "" {
      LastIndexNone(s[..|s| - 1], c);
    }
  }

  lemma {:induction false} LastIndexAt(a: string, c: char, b: string)
    requires c !in b
    ensures LastIndex(a + [c] + b, c) == |a|
  {
    var s := a + [c] + b;
    if b != "" {
      var init := b[..|b| - 1];
      assert s[..|s| - 1] == a + [c] + init;
      LastIndexAt(a, c, init);
    }
  }

  /** One number between the quotes. */
  lemma SingleField(digits: string, kind: int, lead: int, negative: bool)
    requires AllDigits(digits) && digits != "" && NatVal(digits) <= INT32_MAX
    requires WithinLead(NatVal(digits), lead) && kind in {QUA_Y, QUA_MO}
    ensures var v := (if negative then -1 else 1) * NatVal(digits);
      TimeFields(digits, kind, lead, negative) == Some(if kind == QUA_Y then (v, 0) else (0, v))
  {
    hide NatVal, ParseInt;
    LastIndexNone(digits, '-');
    ParseDigits(digits, INT32_MAX);
  }

  lemma PairField(a: string, b: string, lead: int, negative: bool)
    requires AllDigits(a) && a != "" && NatVal(a) <= INT32_MAX
    requires AllDigits(b) && b != "" && NatVal(b) <= INT32_MAX
    requires WithinLead(NatVal(a), lead)
    ensures var sign := if negative then -1 else 1;
      TimeFields(a + "-" + b, QUA_YM, lead, negative) == Some((sign * NatVal(a), sign * NatVal(b)))
  {
    hide NatVal, ParseInt;
    LastIndexAt(a, '-', b);
    var s := a + "-" + b;
    assert s[..|a|] == a && s[|a| + 1..] == b;
    ParseDigits(a, INT32_MAX);
    ParseDigits(b, INT32_MAX);
  }

  lemma LeadBound(n: nat, lead: nat)
    requires 1 <= lead && |Itoa(n)| <= lead
    ensures WithinLead(n, lead)
  {
    ItoaLength(n, lead);
  }

  function Sign(ym: YM): int { if PrintsMinus(ym) then -1 else 1 }

  lemma InnerRead(ym: YM)
    requires WellFormed(ym)
    ensures FieldText(Inner(ym))
    ensures TimeFields(Inner(ym), ym.kind, ym.leadScale, PrintsMinus(ym))
      == Some((Sign(ym) * Abs(ym.years), Sign(ym) * Abs(ym.months)))
  {
    hide Itoa, Padded, WithinLead, TimeFields, NatVal;
    var y, m := Padded(Itoa(Abs(ym.years)), ym.leadScale), Padded(Itoa(Abs(ym.months)), ym.leadScale);
    PaddedDigits(Abs(ym.years), ym.leadScale);
    PaddedDigits(Abs(ym.months), ym.leadScale);
    PaddedDigits(Abs(ym.months), 2);
    if ym.kind == QUA_MO {
      LeadBound(Abs(ym.months), ym.leadScale);
      SingleField(m, QUA_MO, ym.leadScale, PrintsMinus(ym));
    } else {
      LeadBound(Abs(ym.years), ym.leadScale);
      if ym.kind == QUA_Y {
        SingleField(y, QUA_Y, ym.leadScale, PrintsMinus(ym));
      } else {
        PairField(y, Padded(Itoa(Abs(ym.months)), 2), ym.leadScale, PrintsMinus(ym));
      }
    }
  }

  lemma BodyRead(ym: YM)
    requires WellFormed(ym)
    ensures GetTimeValue(Body(ym), ym.kind, ym.leadScale)
      == Some((Sign(ym) * Abs(ym.years), Sign(ym) * Abs(ym.months)))
  {
    InnerRead(ym);
    BodyShape(ym);
    hide *;
    if PrintsMinus(ym) {
      TimeValueNegative(Inner(ym), ym.kind, ym.leadScale);
    } else {
      TimeValueUnsigned(Inner(ym), ym.kind, ym.leadScale);
    }
  }

  lemma BodyShape(ym: YM)
    requires ym.kind in {QUA_Y, QUA_YM, QUA_MO}
    ensures Body(ym) == if PrintsMinus(ym) then "-'" + Inner(ym) + "'" else "'" + Inner(ym) + "'"
  {
    assert Quoted(ym) == "'" + Inner(ym) + "'";
    Prefixes(Inner(ym));
    hide Quoted, Inner;
  }

  lemma Prefixes(inner: string)
    ensures "-" + ("'" + inner + "'") == "-'" + inner + "'" && "" + ("'" + inner + "'") == "'" + inner + "'"
  {}

  function Word(ym: YM): string { if ym.kind == QUA_MO then "MONTH" else "YEAR" }

  lemma PrintedIsLine(ym: YM)
    requires WellFormed(ym)
    ensures LineParts(Body(ym), Word(ym), FormatInt(ym.leadScale), Tail(ym))
    ensures Printed(ym) == Line(Body(ym), Word(ym), FormatInt(ym.leadScale), Tail(ym))
  {
    BodyIsBodyText(ym);
    LeadText(ym.leadScale);
    PrintedRegrouped(ym);
    hide Printed, Line, Body, FormatInt, BodyText, AllDigits, ScaleFits;
  }

  lemma PrintedRegrouped(ym: YM)
    ensures Printed(ym) == Line(Body(ym), Word(ym), FormatInt(ym.leadScale), Tail(ym))
  {
    UnitOfWord(ym);
    hide Unit, UnitText, FormatInt, SignText, Quoted, Tail, Word;
    Regroup("INTERVAL ", SignText(ym), Quoted(ym));
  }

  lemma UnitOfWord(ym: YM)
    ensures Unit(ym) == UnitText(Word(ym), FormatInt(ym.leadScale))
  {
    hide FormatInt;
  }

  lemma KindPrinted(ym: YM)
    requires WellFormed(ym)
    ensures KindOf(Printed(ym)) == Some((ym.kind, |Front(Body(ym))|))
  {
    hide KindOf, Itoa, FormatInt, Body;
    PrintedIsLine(ym);
    var front, lead := Front(Body(ym)), FormatInt(ym.leadScale);
    FrontLetters(Body(ym));
    LeadLetters(lead);
    hide Printed, BodyText, Front, UnitText, AllDigits;
    if ym.kind == QUA_Y {
      KindYear(front, lead);
      assert Printed(ym) == front + UnitText("YEAR", lead);
    } else if ym.kind == QUA_MO {
      KindMonth(front, lead);
      assert Printed(ym) == front + UnitText("MONTH", lead);
    } else {
      KindYearToMonth(front, lead);
    }
  }

  lemma LeadPrinted(ym: YM)
    requires WellFormed(ym)
    ensures |Front(Body(ym))| <= |Printed(ym)|
    ensures GetLeadPrec(Printed(ym), |Front(Body(ym))|) == Some(ym.leadScale)
  {
    hide GetLeadPrec, Itoa, FormatInt, Body, TrimSpace, ParseInt, NatVal;
    PrintedIsLine(ym);
    LeadText(ym.leadScale);
    hide Printed, Front, UnitText;
    LeadRead(Front(Body(ym)), Word(ym), FormatInt(ym.leadScale), Tail(ym));
  }

  lemma WordHeads(ym: YM)
    ensures var u := UnitText(Word(ym), FormatInt(ym.leadScale)); HasPrefix(u, "YEAR") || HasPrefix(u, "MONTH")
  {
    hide FormatInt;
    var u := UnitText(Word(ym), FormatInt(ym.leadScale));
    assert u[..|Word(ym)|] == Word(ym);
  }

  /** What parsing gives back for any well-formed interval: one sign for both fields. */
  lemma ParsedPrinted(ym: YM)
    requires WellFormed(ym)
    ensures Parsed(Printed(ym))
      == Some(ym.(years := Sign(ym) * Abs(ym.years), months := Sign(ym) * Abs(ym.months)))
  {
    var lead := FormatInt(ym.leadScale);
    PrintedIsLine(ym);
    LineTrimmed(Body(ym), Word(ym), lead, Tail(ym));
    SplitLine(Body(ym), Word(ym), lead, Tail(ym));
    WordHeads(ym);
    KindPrinted(ym);
    LeadPrinted(ym);
    BodyRead(ym);
    assert ScaleFits(ym.kind, Sign(ym) * Abs(ym.years), Sign(ym) * Abs(ym.months), ym.leadScale);
    hide Printed, Line, LineParts, Body, UnitText, FormatInt, Split, Itoa, KindOf, GetLeadPrec, GetTimeValue, TrimSpace,
      ToUpper, Front, ScaleFits;
  }

  /** Printing and parsing is the identity exactly on intervals whose fields agree in sign. */
  lemma PrintParse(ym: YM)
    requires WellFormed(ym)
    ensures Parsed(Printed(ym)) == Some(ym) <==> OneSign(ym)
  {
    hide Printed, Parsed, ScaleFits;
    ParsedPrinted(ym);
  }

  // ---------- conversion ----------

  function TotalMonths(ym: YM): int { ym.years * 12 + ym.months }

  /** Whole years, rounding half a year away from zero. */
  function RoundedYears(total: int): int {
    var year, month := TruncDiv(total, 12), TruncMod(total, 12);
    if month >= 6 then year + 1 else if month <= -6 then year - 1 else year
  }

  /** `convertTo`; None is the error for a lead field wider than the target allows. */
  function ConvertTo(ym: YM, scale: int): Option<YM> {
    var kind, lead, total := DestKind(scale), DestLead(scale), TotalMonths(ym);
    if kind == QUA_Y then
      var year := RoundedYears(total);
      if lead < |Itoa(Abs(year))| then None else Some(YM(kind, lead, year, 0, scale))
    else if kind == QUA_YM then
      var year := TruncDiv(total, 12);
      if lead < |Itoa(Abs(year))| then None else Some(YM(kind, lead, year, TruncMod(total, 12), scale))
    else if kind == QUA_MO then
      if lead < |Itoa(Abs(total))| then None else Some(YM(kind, lead, 0, total, scale))
    else Some(YM(kind, lead, 0, 0, scale))
  }

  /** Fields of one sign with fewer than twelve months. */
  predicate Carried(ym: YM) {
    -12 < ym.months < 12 && !(ym.years > 0 && ym.months < 0) && !(ym.years < 0 && ym.months > 0)
  }

  lemma TruncSplit(total: int)
    ensures TruncDiv(total, 12) * 12 + TruncMod(total, 12) == total
    ensures -12 < TruncMod(total, 12) < 12
    ensures total >= 0 ==> TruncDiv(total, 12) >= 0 && TruncMod(total, 12) >= 0
    ensures total <= 0 ==> TruncDiv(total, 12) <= 0 && TruncMod(total, 12) <= 0
  {}

  lemma TruncUnique(years: int, months: int)
    requires -12 < months < 12 && !(years > 0 && months < 0) && !(years < 0 && months > 0)
    ensures TruncDiv(years * 12 + months, 12) == years && TruncMod(years * 12 + months, 12) == months
  {
    TruncSplit(years * 12 + months);
  }

  /** To YEAR TO MONTH or to MONTH the length is kept exactly and carries are normalised;
      to YEAR it is off by at most six months. */
  lemma ConvertKeepsLength(ym: YM, scale: int)
    requires ConvertTo(ym, scale).Some?
    requires DestKind(scale) in {QUA_Y, QUA_YM, QUA_MO}
    ensures var r := ConvertTo(ym, scale).value;
      && r.kind == DestKind(scale)
      && (r.kind == QUA_Y ==> -6 <= TotalMonths(r) - TotalMonths(ym) <= 6)
      && (r.kind != QUA_Y ==> TotalMonths(r) == TotalMonths(ym))
      && (r.kind == QUA_YM ==> Carried(r))
      && (r.kind == QUA_Y ==> (TotalMonths(r) == TotalMonths(ym) <==> TotalMonths(ym) % 12 == 0))
  {
    hide Itoa;
    TruncSplit(TotalMonths(ym));
  }

  /** Half a year rounds away from zero, so negating an interval negates its years. */
  lemma RoundingIsSymmetric(total: int)
    ensures RoundedYears(-total) == -RoundedYears(total)
    ensures total % 12 == 6 && total > 0 ==> RoundedYears(total) * 12 == total + 6
  {
    TruncSplit(total);
    TruncSplit(-total);
  }

  /** The lead field the conversion checks against the target's lead scale. */
  function LeadField(ym: YM, scale: int): int {
    if DestKind(scale) == QUA_Y then RoundedYears(TotalMonths(ym))
    else if DestKind(scale) == QUA_YM then TruncDiv(TotalMonths(ym), 12)
    else TotalMonths(ym)
  }

  /** It fails exactly when the lead field has more digits than the target's lead scale. */
  lemma ConvertFails(ym: YM, scale: int)
    requires DestKind(scale) in {QUA_Y, QUA_YM, QUA_MO}
    ensures ConvertTo(ym, scale).None? <==>
      DestLead(scale) == 0 || Abs(LeadField(ym, scale)) >= Pow10(DestLead(scale))
  {
    hide Itoa, Pow10, RoundedYears;
    var v := Abs(LeadField(ym, scale));
    ItoaDenotes(v);
    if DestLead(scale) >= 1 {
      ItoaLength(v, DestLead(scale));
    }
  }

  /** A target of any other kind silently yields an empty interval. */
  lemma UnknownKindLosesLength(ym: YM, scale: int)
    requires DestKind(scale) !in {QUA_Y, QUA_YM, QUA_MO}
    ensures ConvertTo(ym, scale).Some?
    ensures TotalMonths(ConvertTo(ym, scale).value) == TotalMonths(ym) <==> TotalMonths(ym) == 0
  {}

  /** Any interval of the same length converts to a given one exactly when that one is
      carried; so going to MONTH and back to YEAR TO MONTH returns it unchanged. */
  lemma SameLengthConverts(ym: YM, r: YM)
    requires WellFormed(ym) && ym.kind == QUA_YM && TotalMonths(r) == TotalMonths(ym)
    ensures ConvertTo(r, ym.scaleForSvr) == Some(ym) <==> Carried(ym)
  {
    hide Itoa, TruncDiv, TruncMod, RoundedYears, DestKind, DestLead;
    ScaleFields(QUA_YM, ym.leadScale);
    TruncSplit(TotalMonths(ym));
    if Carried(ym) {
      TruncUnique(ym.years, ym.months);
    }
  }

  lemma ScaleFields(kind: int, lead: int)
    requires kind in {QUA_Y, QUA_YM, QUA_MO} && 0 <= lead < 16
    ensures DestKind(ServerScale(kind, lead)) == kind && DestLead(ServerScale(kind, lead)) == lead
  {
    DivisionIs(ServerScale(kind, lead), 0x100, kind, lead * 0x10);
    DivisionIs(ServerScale(kind, lead), 0x10, kind * 0x10 + lead, 0);
    DivisionIs(kind * 0x10 + lead, 0x10, kind, lead);
  }

  // ---------- the wire form ----------

  /** `encode`: None where the source returns an error. */
  function Encode(ym: YM, scale: int): Option<seq<Byte>> {
    var target := if scale == 0 then ym.scaleForSvr else scale;
    if !ScaleFits(ym.kind, ym.years, ym.months, ym.leadScale) then None
    else if target != ym.scaleForSvr then
      match ConvertTo(ym, target)
      case None => None
      case Some(r) => Some(PutInt32(r.years) + PutInt32(r.months) + PutInt32(target))
    else Some(PutInt32(ym.years) + PutInt32(ym.months) + PutInt32(target))
  }

  /** `newDmIntervalYMByBytes` */
  function Decode(b: seq<Byte>): YM
    requires |b| >= 12
  {
    var scale, kind: int := GetInt32(b, 8), b[9];
    var years := if kind in {QUA_Y, QUA_YM} then GetInt32(b, 0) else 0;
    var months := if kind in {QUA_MO, QUA_YM} then GetInt32(b, 4) else 0;
    YM(kind, scale / 0x10 % 0x10, years, months, scale)
  }

  /** The 12 bytes: years and months in 32 bits each, then the scale word, with the lead
      scale in the high half of its first byte and the kind in its second. */
  lemma WireBytes(ym: YM)
    requires WellFormed(ym) && Encode(ym, 0).Some?
    ensures var b := Encode(ym, 0).value;
      && |b| == 12 && b[0..4] == PutInt32(ym.years) && b[4..8] == PutInt32(ym.months)
      && b[8] as int == 16 * ym.leadScale && b[9] as int == ym.kind && b[10] as int == 0 && b[11] as int == 0
  {
    var scale := ym.scaleForSvr;
    DivisionIs(scale, 0x100, ym.kind, ym.leadScale * 0x10);
    DivisionIs(scale, 0x1_0000, 0, scale);
    DivisionIs(scale, 0x100_0000, 0, scale);
    var p := PutInt32(scale);
    assert p[0] as int == 16 * ym.leadScale && p[1] as int == ym.kind && p[2] as int == 0 && p[3] as int == 0;
    hide PutInt32, Itoa;
  }

  /** A conversion goes to the kind and lead scale its scale word names. */
  lemma TargetFields(ym: YM, kind: int, lead: int, low: int)
    requires 0 <= kind < 256 && 0 <= lead < 16 && 0 <= low < 16
    ensures var r := ConvertTo(ym, kind * 256 + lead * 16 + low);
      r.Some? ==> r.value.kind == kind && r.value.leadScale == lead
  {
    var scale := kind * 256 + lead * 16 + low;
    DivisionIs(scale, 0x100, kind, lead * 0x10 + low);
    DivisionIs(kind, 0x100, 0, kind);
    DivisionIs(scale, 0x10, kind * 0x10 + lead, low);
    DivisionIs(kind * 0x10 + lead, 0x10, kind, lead);
    hide Itoa, RoundedYears, TruncDiv, TruncMod;
  }

  lemma ReadBack(years: int, months: int, scale: int)
    requires FitsInt32(scale)
    ensures var b := PutInt32(years) + PutInt32(months) + PutInt32(scale);
      && (GetInt32(b, 0) == years <==> FitsInt32(years))
      && (GetInt32(b, 4) == months <==> FitsInt32(months))
      && GetInt32(b, 8) == scale
      && b[9] as int == DestKind(scale)
  {
    var b := PutInt32(years) + PutInt32(months) + PutInt32(scale);
    assert b[0..4] == PutInt32(years) && b[4..8] == PutInt32(months) && b[8..12] == PutInt32(scale);
    GetInt32At(b, 8, scale);
    if FitsInt32(years) {
      GetInt32At(b, 0, years);
    }
    if FitsInt32(months) {
      GetInt32At(b, 4, months);
    }
  }

  /** The bytes carry the interval sent: itself, or its conversion to the asked scale. */
  ghost predicate Sent(ym: YM, scale: int, r: YM) {
    if scale == 0 || scale == ym.scaleForSvr then r == ym else ConvertTo(ym, scale) == Some(r)
  }

  lemma FieldsOfKind(ym: YM, scale: int, r: YM)
    requires WellFormed(ym) && Sent(ym, scale, r) && DestKind(scale) in {QUA_Y, QUA_YM, QUA_MO}
    ensures r.kind in {QUA_Y, QUA_YM, QUA_MO} && r.kind == DestKind(r.scaleForSvr)
    ensures r.leadScale == DestLead(r.scaleForSvr)
    ensures (r.kind == QUA_Y ==> r.months == 0) && (r.kind == QUA_MO ==> r.years == 0)
    ensures r.scaleForSvr == if scale == 0 then ym.scaleForSvr else scale
  {
    hide Itoa, RoundedYears, TruncDiv, TruncMod, DestKind, DestLead, ScaleFits;
    ScaleFields(ym.kind, ym.leadScale);
  }

  /** Decoding what was encoded gives that interval, exactly when its fields fit the wire. */
  lemma EncodeDecode(ym: YM, scale: int, r: YM)
    requires WellFormed(ym) && Sent(ym, scale, r)
    requires DestKind(scale) in {QUA_Y, QUA_YM, QUA_MO} && FitsInt32(scale)
    ensures Encode(ym, scale).Some? && |Encode(ym, scale).value| == 12
    ensures Decode(Encode(ym, scale).value) == r <==> FitsInt32(r.years) && FitsInt32(r.months)
  {
    FieldsOfKind(ym, scale, r);
    hide Itoa, ConvertTo, GetInt32, PutInt32, ScaleFits;
    var target := if scale == 0 then ym.scaleForSvr else scale;
    assert Encode(ym, scale) == Some(PutInt32(r.years) + PutInt32(r.months) + PutInt32(target));
    ReadBack(r.years, r.months, target);
  }
}
