/**
 Bound values in a dialect whose placeholder is '?' (dialects/dameng), and in
 text collected with bind variables skipped (main.go:218-235). A nested
 expression is spliced in at the first '?' (scope.go:279), which may be the
 placeholder of an earlier value; the theorems say exactly when it is not.
 */
module QuestionMarks {
  import opened BindVars
  import opened SqlReading

  // ---------- what should be printed ----------

  /** The text printed for a value, which does not depend on the list (AskedAnywhere). */
  function Asked(value: Arg): seq<Tok> {
    AddedIn(Question, value, []).0
  }

  function AskedAll(args: seq<Arg>): (r: seq<seq<Tok>>)
    ensures |r| == |args|
  {
    seq(|args|, i requires 0 <= i < |args| => Asked(args[i]))
  }

  /** The value as it should be printed: every argument at its own '?'. */
  function Right(value: Arg): seq<Tok>
    decreases value, 1
  {
    match value
    case Plain(_) => [Mark]
    case Expr(template, args) => Fill(template, RightAll(args))
  }

  function RightAll(args: seq<Arg>): (r: seq<seq<Tok>>)
    ensures |r| == |args|
    decreases args, 0
  {
    if args == [] then [] else [Right(args[0])] + RightAll(args[1..])
  }

  /** The values of a tree, from left to right. */
  function Values(value: Arg): seq<Val>
    decreases value, 1
  {
    match value
    case Plain(v) => [v]
    case Expr(_, args) => ValuesAll(args)
  }

  function ValuesAll(args: seq<Arg>): seq<Val>
    decreases args, 0
  {
    if args == [] then [] else Values(args[0]) + ValuesAll(args[1..])
  }

  /** The values as replacements for '?'. */
  function Lits(vals: seq<Val>): (r: seq<seq<Tok>>)
    ensures |r| == |vals|
  {
    seq(|vals|, i requires 0 <= i < |vals| => [Lit(vals[i])])
  }

  /** In no argument list does an expression follow an argument that carries a value. */
  predicate Ordered(value: Arg) {
    match value
    case Plain(_) => true
    case Expr(_, args) =>
      && (forall i :: 0 <= i < |args| ==> Ordered(args[i]))
      && forall i, j :: 0 <= i < j < |args| && args[j].Expr? ==> Carried(args[i]) == 0
  }

  /** The text of every expression that is an argument begins with something other than '?'. */
  predicate WordsFirst(value: Arg) {
    match value
    case Plain(_) => true
    case Expr(_, args) =>
      forall i :: 0 <= i < |args| ==>
        WordsFirst(args[i]) && (args[i].Expr? ==> args[i].template != [] && args[i].template[0] != Mark)
  }

  // ---------- the first mark ----------

  /** Position of the first '?', or the length. */
  function FirstMark(ts: seq<Tok>): (m: nat)
    ensures m <= |ts|
    ensures m < |ts| ==> ts[m] == Mark
    ensures forall k :: 0 <= k < m ==> ts[k] != Mark
  {
    if ts == [] || ts[0] == Mark then 0 else 1 + FirstMark(ts[1..])
  }

  lemma {:induction false} MarkedAt(ts: seq<Tok>)
    ensures Marks(ts) == 0 <==> FirstMark(ts) == |ts|
  {
    if ts != [] && ts[0] != Mark {
      MarkedAt(ts[1..]);
    }
  }

  lemma {:induction false} FirstMarkIs(ts: seq<Tok>, m: nat)
    requires m <= |ts| && (m < |ts| ==> ts[m] == Mark)
    requires forall k :: 0 <= k < m ==> ts[k] != Mark
    ensures FirstMark(ts) == m
  {}

  lemma OneMore(exp: seq<Tok>, m: nat, text: seq<Tok>, tail: seq<Tok>)
    requires 0 < m <= |exp|
    ensures [exp[0]] + (exp[1..][..m - 1] + text + tail) == exp[..m] + text + tail
  {
    assert exp[..m] == [exp[0]] + exp[1..][..m - 1];
  }

  /** Where a replacement goes. */
  lemma {:induction false} ReplaceAt(exp: seq<Tok>, text: seq<Tok>)
    requires Marks(exp) > 0
    ensures var m := FirstMark(exp); m < |exp| && ReplaceFirst(exp, text) == exp[..m] + text + exp[m + 1..]
  {
    MarkedAt(exp);
    if exp[0] == Mark {
      assert exp[..0] + text + exp[1..] == text + exp[1..];
    } else {
      ReplaceAt(exp[1..], text);
      var m := FirstMark(exp);
      assert exp[m + 1..] == exp[1..][m..];
      OneMore(exp, m, text, exp[m + 1..]);
    }
  }

  lemma {:induction false} FillAt(exp: seq<Tok>, texts: seq<seq<Tok>>)
    requires Marks(exp) > 0 && texts != []
    ensures var m := FirstMark(exp); m < |exp| && Fill(exp, texts) == exp[..m] + texts[0] + Fill(exp[m + 1..], texts[1..])
  {
    MarkedAt(exp);
    if exp[0] == Mark {
      assert exp[..0] + texts[0] + Fill(exp[1..], texts[1..]) == texts[0] + Fill(exp[1..], texts[1..]);
    } else {
      FillAt(exp[1..], texts);
      var m := FirstMark(exp);
      assert exp[m + 1..] == exp[1..][m..];
      OneMore(exp, m, texts[0], Fill(exp[m + 1..], texts[1..]));
    }
  }

  /** The marks of a text after its first one. */
  lemma MarksAfterFirst(exp: seq<Tok>)
    requires Marks(exp) > 0
    ensures var m := FirstMark(exp); m < |exp| && Marks(exp[..m]) == 0 && Marks(exp[m + 1..]) == Marks(exp) - 1
  {
    MarkedAt(exp);
    var m := FirstMark(exp);
    FirstMarkIs(exp[..m], m);
    MarkedAt(exp[..m]);
    MarksAppend(exp[..m], exp[m..]);
    assert exp == exp[..m] + exp[m..] && exp[m..][1..] == exp[m + 1..];
  }

  // ---------- one replacement after another ----------

  /** Each text in turn put at the first '?'. */
  function ReplaceEach(exp: seq<Tok>, texts: seq<seq<Tok>>): seq<Tok>
    decreases |texts|
  {
    if texts == [] then exp else ReplaceEach(ReplaceFirst(exp, texts[0]), texts[1..])
  }

  function Size(texts: seq<seq<Tok>>): nat {
    if texts == [] then 0 else |texts[0]| + Size(texts[1..])
  }

  function MarksAll(texts: seq<seq<Tok>>): nat {
    if texts == [] then 0 else Marks(texts[0]) + MarksAll(texts[1..])
  }

  lemma ReplaceCount(exp: seq<Tok>, text: seq<Tok>)
    requires Marks(exp) > 0
    ensures |ReplaceFirst(exp, text)| == |exp| - 1 + |text|
    ensures Marks(ReplaceFirst(exp, text)) == Marks(exp) - 1 + Marks(text)
  {
    hide Marks, ReplaceFirst, FirstMark;
    ReplaceAt(exp, text);
    MarksAfterFirst(exp);
    var m := FirstMark(exp);
    MarksAppend(exp[..m], text);
    MarksAppend(exp[..m] + text, exp[m + 1..]);
  }

  lemma {:induction false} ReplaceEachCount(exp: seq<Tok>, texts: seq<seq<Tok>>)
    requires Marks(exp) >= |texts|
    ensures |ReplaceEach(exp, texts)| == |exp| - |texts| + Size(texts)
    ensures Marks(ReplaceEach(exp, texts)) == Marks(exp) - |texts| + MarksAll(texts)
    decreases |texts|
  {
    hide Marks, ReplaceFirst;
    if texts != [] {
      ReplaceCount(exp, texts[0]);
      ReplaceEachCount(ReplaceFirst(exp, texts[0]), texts[1..]);
    }
  }

  lemma {:induction false} FillCount(exp: seq<Tok>, texts: seq<seq<Tok>>)
    requires Marks(exp) == |texts|
    ensures |Fill(exp, texts)| == |exp| - |texts| + Size(texts)
    ensures Marks(Fill(exp, texts)) == MarksAll(texts)
    decreases |texts|
  {
    if texts == [] {
      FillNothing(exp, texts);
    } else {
      FillAt(exp, texts);
      MarksAfterFirst(exp);
      var m := FirstMark(exp);
      FillCount(exp[m + 1..], texts[1..]);
      MarksAppend(exp[..m], texts[0]);
      MarksAppend(exp[..m] + texts[0], Fill(exp[m + 1..], texts[1..]));
    }
  }

  /** What stands before the first '?' stays, and the first '?' never moves to the left. */
  lemma {:induction false} ReplaceEachKeeps(exp: seq<Tok>, texts: seq<seq<Tok>>)
    requires Marks(exp) >= |texts|
    ensures var m := FirstMark(exp);
      && m <= |ReplaceEach(exp, texts)| && ReplaceEach(exp, texts)[..m] == exp[..m]
      && m <= FirstMark(ReplaceEach(exp, texts))
    decreases |texts|
  {
    hide Marks, ReplaceFirst;
    if texts != [] {
      ReplaceCount(exp, texts[0]);
      ReplaceAt(exp, texts[0]);
      var exp' := ReplaceFirst(exp, texts[0]);
      var m, m' := FirstMark(exp), FirstMark(exp');
      assert exp'[..m] == exp[..m];
      assert m <= m';
      ReplaceEachKeeps(exp', texts[1..]);
      assert ReplaceEach(exp, texts)[..m] == ReplaceEach(exp, texts)[..m'][..m];
      assert exp'[..m'][..m] == exp'[..m];
    }
  }

  lemma {:induction false} ReplaceMark(exp: seq<Tok>)
    ensures ReplaceFirst(exp, [Mark]) == exp
  {
    if exp != [] && exp[0] != Mark {
      ReplaceMark(exp[1..]);
    }
  }

  /** Two texts that differ at most in where marks stand after the first one. */
  ghost predicate Alike(text: seq<Tok>, says: seq<Tok>) {
    && |text| == |says|
    && Marks(text) == Marks(says)
    && FirstMark(says) <= FirstMark(text)
    && (Marks(text) == 0 ==> text == says)
  }

  ghost predicate AllAlike(texts: seq<seq<Tok>>, says: seq<seq<Tok>>) {
    |texts| == |says| && forall k :: 0 <= k < |texts| ==> Alike(texts[k], says[k])
  }

  lemma {:induction false} AlikeSums(texts: seq<seq<Tok>>, says: seq<seq<Tok>>)
    requires AllAlike(texts, says)
    ensures Size(texts) == Size(says) && MarksAll(texts) == MarksAll(says)
  {
    if texts != [] {
      AlikeSums(texts[1..], says[1..]);
    }
  }

  lemma {:induction false} ReplaceEachAlike(exp: seq<Tok>, texts: seq<seq<Tok>>, says: seq<seq<Tok>>)
    requires Marks(exp) == |texts| && AllAlike(texts, says)
    ensures Alike(ReplaceEach(exp, texts), Fill(exp, says))
    decreases |texts|
  {
    hide ReplaceFirst, Fill, Marks;
    if texts == [] {
      FillNothing(exp, says);
    } else {
      var exp' := ReplaceFirst(exp, texts[0]);
      ReplaceCount(exp, texts[0]);
      if Marks(texts[0]) == 0 {
        ReplaceEachAlike(exp', texts[1..], says[1..]);
        ReplaceThenFill(exp, texts[0], says[1..]);
        assert [says[0]] + says[1..] == says;
      } else {
        AlikeSums(texts, says);
        ReplaceEachCount(exp, texts);
        FillCount(exp, says);
        FirstMarks(exp, texts[0], says);
        ReplaceEachKeeps(exp', texts[1..]);
        AlikeMarks(texts[0], texts[1..]);
      }
    }
  }

  lemma AlikeMarks(text: seq<Tok>, texts: seq<seq<Tok>>)
    ensures MarksAll([text] + texts) >= Marks(text)
  {
    assert ([text] + texts)[1..] == texts;
  }

  /** The first mark of a filled text, against that after one replacement. */
  lemma FirstMarks(exp: seq<Tok>, text: seq<Tok>, says: seq<seq<Tok>>)
    requires Marks(exp) > 0 && says != [] && Marks(text) > 0 && Alike(text, says[0])
    ensures var p := FirstMark(exp) + FirstMark(says[0]);
      && p < |Fill(exp, says)| && Fill(exp, says)[p] == Mark && FirstMark(Fill(exp, says)) <= p
      && p <= FirstMark(ReplaceFirst(exp, text))
  {
    hide ReplaceFirst, Fill, Marks;
    ReplaceAt(exp, text);
    FillAt(exp, says);
    MarkedAt(text);
    MarkedAt(says[0]);
    FirstMarkIs(ReplaceFirst(exp, text), FirstMark(exp) + FirstMark(text));
  }

  /** No text but a lone '?' follows one that still holds a '?'. */
  predicate Settled(texts: seq<seq<Tok>>) {
    forall i, j :: 0 <= i < j < |texts| ==> texts[j] == [Mark] || Marks(texts[i]) == 0
  }

  /** A lone '?', or text that begins with something else. */
  predicate MarkOrWord(text: seq<Tok>) {
    text == [Mark] || (text != [] && text[0] != Mark)
  }

  predicate AllMarkOrWord(texts: seq<seq<Tok>>) {
    forall i :: 0 <= i < |texts| ==> MarkOrWord(texts[i])
  }

  predicate Lone(texts: seq<seq<Tok>>) {
    forall i :: 0 <= i < |texts| ==> texts[i] == [Mark]
  }

  lemma {:induction false} ReplaceLone(exp: seq<Tok>, texts: seq<seq<Tok>>)
    requires Lone(texts)
    ensures ReplaceEach(exp, texts) == exp
    decreases |texts|
  {
    if texts != [] {
      ReplaceMark(exp);
      ReplaceLone(exp, texts[1..]);
    }
  }

  lemma {:induction false} FillLone(exp: seq<Tok>, texts: seq<seq<Tok>>)
    requires Lone(texts)
    ensures Fill(exp, texts) == exp
  {
    if exp != [] {
      FillLone(exp[1..], if exp[0] == Mark && texts != [] then texts[1..] else texts);
    }
  }

  lemma {:induction false} ReplaceEachSettled(exp: seq<Tok>, texts: seq<seq<Tok>>)
    requires Marks(exp) == |texts| && Settled(texts)
    ensures ReplaceEach(exp, texts) == Fill(exp, texts)
    decreases |texts|
  {
    hide ReplaceFirst, Fill, Marks;
    if texts == [] {
      FillNothing(exp, texts);
    } else {
      var exp' := ReplaceFirst(exp, texts[0]);
      ReplaceCount(exp, texts[0]);
      if Marks(texts[0]) == 0 {
        ReplaceEachSettled(exp', texts[1..]);
        ReplaceThenFill(exp, texts[0], texts[1..]);
        assert [texts[0]] + texts[1..] == texts;
      } else {
        assert Lone(texts[1..]);
        ReplaceLone(exp', texts[1..]);
        ReplaceAt(exp, texts[0]);
        FillAt(exp, texts);
        FillLone(exp[FirstMark(exp) + 1..], texts[1..]);
      }
    }
  }

  /** A text that begins with a word moves the first '?' to the right. */
  lemma {:induction false} ReplaceEachMoves(exp: seq<Tok>, texts: seq<seq<Tok>>)
    requires Marks(exp) >= |texts| && AllMarkOrWord(texts) && !Lone(texts)
    ensures FirstMark(exp) < FirstMark(ReplaceEach(exp, texts))
    decreases |texts|
  {
    hide ReplaceFirst, Marks;
    var exp' := ReplaceFirst(exp, texts[0]);
    ReplaceCount(exp, texts[0]);
    if texts[0] == [Mark] {
      ReplaceMark(exp);
      ReplaceEachMoves(exp, texts[1..]);
    } else {
      ReplaceAt(exp, texts[0]);
      var m := FirstMark(exp);
      assert exp'[..m] == exp[..m] && exp'[m] == texts[0][0];
      assert FirstMark(exp') > m;
      ReplaceEachKeeps(exp', texts[1..]);
    }
  }

  lemma {:induction false} ReplaceEachDiffers(exp: seq<Tok>, texts: seq<seq<Tok>>, says: seq<seq<Tok>>)
    requires Marks(exp) == |texts| && AllAlike(texts, says) && AllMarkOrWord(texts)
    requires texts != says || !Settled(texts)
    ensures ReplaceEach(exp, texts) != Fill(exp, says)
    decreases |texts|
  {
    hide ReplaceFirst, Fill, Marks;
    var exp' := ReplaceFirst(exp, texts[0]);
    ReplaceCount(exp, texts[0]);
    if Marks(texts[0]) == 0 {
      assert texts == [texts[0]] + texts[1..] && says == [says[0]] + says[1..];
      ReplaceEachDiffers(exp', texts[1..], says[1..]);
      ReplaceThenFill(exp, texts[0], says[1..]);
    } else if Lone(texts[1..]) {
      OneDiffers(exp, texts, says);
    } else {
      FirstMarks(exp, texts[0], says);
      AlikeMarks(texts[0], texts[1..]);
      ReplaceEachMoves(exp', texts[1..]);
    }
  }

  lemma OneDiffers(exp: seq<Tok>, texts: seq<seq<Tok>>, says: seq<seq<Tok>>)
    requires Marks(exp) == |texts| > 0 && AllAlike(texts, says)
    requires Lone(texts[1..]) && texts != says
    ensures ReplaceEach(exp, texts) != Fill(exp, says)
  {
    hide ReplaceFirst, Fill, FirstMark;
    forall k | 0 <= k < |says[1..]| ensures says[1..][k] == [Mark] {
      assert Alike(texts[k + 1], says[k + 1]) && texts[k + 1] == texts[1..][k];
      LoneMark(says[k + 1]);
    }
    assert texts[1..] == says[1..];
    assert texts == [texts[0]] + texts[1..] && says == [says[0]] + says[1..];
    ReplaceLone(ReplaceFirst(exp, texts[0]), texts[1..]);
    ReplaceAt(exp, texts[0]);
    FillAt(exp, says);
    var m := FirstMark(exp);
    FillLone(exp[m + 1..], says[1..]);
    var a, b := exp[..m] + texts[0] + exp[m + 1..], exp[..m] + says[0] + exp[m + 1..];
    assert a[m..m + |texts[0]|] == texts[0] && b[m..m + |texts[0]|] == says[0];
  }

  lemma LoneMark(says: seq<Tok>)
    requires Alike([Mark], says)
    ensures says == [Mark]
  {
    assert [Mark][1..] == [] && |says| == 1;
    assert says[1..] == [];
  }

  // ---------- one template ----------

  /** The text does not depend on the values collected before. */
  lemma {:induction false} AskedAnywhere(value: Arg, vars: seq<Val>)
    ensures AddedIn(Question, value, vars).0 == Asked(value)
    decreases value, 1
  {
    if value.Expr? {
      SplicedAsked(value.template, value.args, vars);
      SplicedAsked(value.template, value.args, []);
    }
  }

  lemma {:induction false} SplicedAsked(exp: seq<Tok>, args: seq<Arg>, vars: seq<Val>)
    ensures SplicedIn(Question, exp, args, vars).0 == ReplaceEach(exp, AskedAll(args))
    decreases args, 0
  {
    if args != [] {
      var (text, vars') := AddedIn(Question, args[0], vars);
      AskedAnywhere(args[0], vars);
      SplicedAsked(ReplaceFirst(exp, text), args[1..], vars');
      assert AskedAll(args)[1..] == AskedAll(args[1..]);
    }
  }

  /** When every expression argument, whatever is nested in it, prints text that
      begins with something other than '?', the template comes out filled with
      its arguments' own texts if and only if no expression follows an argument
      whose text holds a '?'. */
  lemma TemplateExactly(template: seq<Tok>, args: seq<Arg>, vars: seq<Val>)
    requires Marks(template) == |args|
    requires forall i :: 0 <= i < |args| && args[i].Expr? ==> Asked(args[i]) != [] && Asked(args[i])[0] != Mark
    ensures
      AddedIn(Question, Expr(template, args), vars).0 == Fill(template, AskedAll(args))
      <==> (forall i, j :: 0 <= i < j < |args| && args[j].Expr? ==> Marks(Asked(args[i])) == 0)
  {
    hide Fill, ReplaceFirst, Marks, FirstMark;
    var texts := AskedAll(args);
    AskedExpr(template, args, vars);
    forall i | 0 <= i < |args| ensures texts[i] == [Mark] <==> args[i].Plain? {
      AskedPlain(args[i]);
    }
    if Settled(texts) {
      ReplaceEachSettled(template, texts);
    } else {
      ReplaceEachDiffers(template, texts, texts);
    }
  }

  lemma AskedExpr(template: seq<Tok>, args: seq<Arg>, vars: seq<Val>)
    ensures AddedIn(Question, Expr(template, args), vars).0 == ReplaceEach(template, AskedAll(args))
  {
    SplicedAsked(template, args, vars);
  }

  lemma AskedPlain(value: Arg)
    ensures value.Plain? ==> Asked(value) == [Mark] && Marks(Asked(value)) == 1
  {}

  /** So with expressions whose text is not empty and holds no '?', the template
      comes out right if and only if no expression follows a plain value. */
  lemma PlainLast(template: seq<Tok>, args: seq<Arg>, vars: seq<Val>)
    requires Marks(template) == |args|
    requires forall i :: 0 <= i < |args| && args[i].Expr? ==> Asked(args[i]) != [] && Marks(Asked(args[i])) == 0
    ensures
      AddedIn(Question, Expr(template, args), vars).0 == Fill(template, AskedAll(args))
      <==> !(exists i, j :: 0 <= i < j < |args| && args[i].Plain? && args[j].Expr?)
  {
    forall i | 0 <= i < |args|
      ensures args[i].Plain? ==> Marks(Asked(args[i])) == 1
      ensures args[i].Expr? ==> Asked(args[i])[0] != Mark
    {
      AskedPlain(args[i]);
    }
    TemplateExactly(template, args, vars);
  }

  // ---------- whole trees ----------

  /** The printed text has one '?' for each value, wherever they stand. */
  lemma {:induction false} AskedAlike(value: Arg)
    requires WellMatched(value)
    ensures Alike(Asked(value), Right(value)) && Marks(Asked(value)) == Carried(value)
    decreases value, 1
  {
    match value
    case Plain(_) =>
      AskedPlain(value);
    case Expr(template, args) =>
      AskedAllAlike(args);
      AskedExpr(template, args, []);
      ReplaceEachCount(template, AskedAll(args));
      ReplaceEachAlike(template, AskedAll(args), RightAll(args));
  }

  lemma {:induction false} AskedAllAlike(args: seq<Arg>)
    requires forall i :: 0 <= i < |args| ==> WellMatched(args[i])
    ensures AllAlike(AskedAll(args), RightAll(args)) && MarksAll(AskedAll(args)) == CarriedAll(args)
    ensures forall i :: 0 <= i < |args| ==> Marks(AskedAll(args)[i]) == Carried(args[i])
    decreases args, 0
  {
    hide Alike, Asked, Marks, WellMatched;
    if args != [] {
      AskedAlike(args[0]);
      AskedAllAlike(args[1..]);
      assert AskedAll(args)[1..] == AskedAll(args[1..]);
      assert RightAll(args)[1..] == RightAll(args[1..]);
      forall i | 0 <= i < |args|
        ensures Alike(AskedAll(args)[i], RightAll(args)[i]) && Marks(AskedAll(args)[i]) == Carried(args[i])
      {
        if i > 0 { assert AskedAll(args)[i] == AskedAll(args[1..])[i - 1] && args[i] == args[1..][i - 1]; }
      }
    }
  }

  lemma {:induction false} RightAt(args: seq<Arg>, i: nat)
    requires i < |args|
    ensures RightAll(args)[i] == Right(args[i])
  {
    if i > 0 {
      RightAt(args[1..], i - 1);
    }
  }

  /** An ordered tree is printed right. */
  lemma {:induction false} OrderedRight(value: Arg)
    requires WellMatched(value) && Ordered(value)
    ensures Asked(value) == Right(value)
    decreases value
  {
    hide Fill, Marks, Asked, ReplaceEach, FirstMark;
    match value
    case Plain(_) => AskedPlain(value);
    case Expr(template, args) =>
      forall i | 0 <= i < |args|
        ensures AskedAll(args)[i] == RightAll(args)[i]
        ensures args[i].Plain? ==> AskedAll(args)[i] == [Mark]
      {
        AskedPlain(args[i]);
        OrderedRight(args[i]);
        RightAt(args, i);
      }
      AskedAllAlike(args);
      assert Settled(AskedAll(args));
      ReplaceEachSettled(template, AskedAll(args));
      AskedExpr(template, args, []);
      AskedAnywhere(value, []);
      assert AskedAll(args) == RightAll(args);
  }

  /** An expression whose text begins with a word still does when its arguments are spliced in. */
  lemma WordFirst(template: seq<Tok>, args: seq<Arg>)
    requires template != [] && template[0] != Mark && Marks(template) == |args|
    ensures Asked(Expr(template, args)) != [] && Asked(Expr(template, args))[0] != Mark
  {
    AskedExpr(template, args, []);
    ReplaceEachKeeps(template, AskedAll(args));
    var text := ReplaceEach(template, AskedAll(args));
    assert text[..FirstMark(template)][0] == text[0];
  }

  /** Where every expression argument begins with a word, only ordered trees are printed right. */
  lemma {:induction false} RightOrdered(value: Arg)
    requires WellMatched(value) && WordsFirst(value)
    requires Asked(value) == Right(value)
    ensures Ordered(value)
    decreases value
  {
    match value
    case Plain(_) =>
    case Expr(template, args) =>
      var texts := AskedAll(args);
      AskedAllAlike(args);
      AskedExpr(template, args, []);
      forall i | 0 <= i < |args| ensures texts[i] == [Mark] <==> args[i].Plain? ensures MarkOrWord(texts[i]) {
        if args[i].Expr? { WordFirst(args[i].template, args[i].args); }
      }
      if texts != RightAll(args) || !Settled(texts) {
        ReplaceEachDiffers(template, texts, RightAll(args));
      }
      forall i | 0 <= i < |args| ensures Ordered(args[i]) {
        RightAt(args, i);
        RightOrdered(args[i]);
      }
  }

  // ---------- what the text says ----------

  /** Text without values: a '?' put in place of each is not mistaken for text. */
  lemma {:induction false} FillInjective(a: seq<Tok>, b: seq<Tok>, vals: seq<Val>)
    requires Template(a) && Template(b) && |a| == |b| && Marks(a) == |vals| && Marks(b) == |vals|
    requires Fill(a, Lits(vals)) == Fill(b, Lits(vals))
    ensures a == b
  {
    if a != [] {
      TailTemplate(a);
      TailTemplate(b);
      var fa, fb := Fill(a, Lits(vals)), Fill(b, Lits(vals));
      assert fa[0] == fb[0] && fa[1..] == fb[1..];
      if a[0] == Mark {
        assert fa[0].Lit? && b[0] == Mark;
        assert Lits(vals)[1..] == Lits(vals[1..]);
        assert fa[1..] == Fill(a[1..], Lits(vals[1..])) && fb[1..] == Fill(b[1..], Lits(vals[1..]));
        FillInjective(a[1..], b[1..], vals[1..]);
      } else {
        assert b[0] != Mark;
        assert fa[1..] == Fill(a[1..], Lits(vals)) && fb[1..] == Fill(b[1..], Lits(vals));
        FillInjective(a[1..], b[1..], vals);
      }
    }
  }

  lemma TailTemplate(ts: seq<Tok>)
    requires Template(ts) && ts != []
    ensures Template(ts[1..])
  {
    forall i | 0 <= i < |ts[1..]| ensures !ts[1..][i].Bind? && !ts[1..][i].Lit? {
      assert ts[1..][i] == ts[i + 1];
    }
  }

  lemma {:induction false} FillAppend(a: seq<Tok>, b: seq<Tok>, la: seq<seq<Tok>>, lb: seq<seq<Tok>>)
    requires Marks(a) == |la|
    ensures Fill(a + b, la + lb) == Fill(a, la) + Fill(b, lb)
  {
    if a == [] {
      assert a + b == b && la + lb == lb;
    } else {
      assert (a + b)[1..] == a[1..] + b;
      if a[0] == Mark {
        assert (la + lb)[1..] == la[1..] + lb;
        FillAppend(a[1..], b, la[1..], lb);
      } else {
        FillAppend(a[1..], b, la, lb);
      }
    }
  }

  /** The right text with the values in place is the tree written out. */
  lemma {:induction false} RightSays(value: Arg)
    requires WellMatched(value)
    ensures |Values(value)| == Carried(value) == Marks(Right(value))
    ensures Fill(Right(value), Lits(Values(value))) == Inline(value)
    decreases value, 1, 0
  {
    match value
    case Plain(v) =>
      AskedPlain(value);
      assert Lits([v]) == [[Lit(v)]] && [Mark][1..] == [];
    case Expr(template, args) =>
      RightAllSays(template, args);
  }

  lemma {:induction false} RightAllSays(exp: seq<Tok>, args: seq<Arg>)
    requires Marks(exp) == |args|
    requires forall i :: 0 <= i < |args| ==> WellMatched(args[i])
    ensures |ValuesAll(args)| == CarriedAll(args) == Marks(Fill(exp, RightAll(args)))
    ensures Fill(Fill(exp, RightAll(args)), Lits(ValuesAll(args))) == Fill(exp, InlineAll(args))
    decreases args, 0, |exp|
  {
    hide WellMatched, Right, Inline, Values;
    if exp == [] {
    } else if exp[0] != Mark {
      RightAllSays(exp[1..], args);
      var f := Fill(exp, RightAll(args));
      assert f[0] == exp[0] && f[1..] == Fill(exp[1..], RightAll(args));
    } else {
      RightSays(args[0]);
      RightAllSays(exp[1..], args[1..]);
      var r, rest := Right(args[0]), Fill(exp[1..], RightAll(args[1..]));
      var vs, vs' := Values(args[0]), ValuesAll(args[1..]);
      assert RightAll(args)[1..] == RightAll(args[1..]);
      assert InlineAll(args)[1..] == InlineAll(args[1..]);
      assert Lits(vs + vs') == Lits(vs) + Lits(vs');
      MarksAppend(r, rest);
      FillAppend(r, rest, Lits(vs), Lits(vs'));
    }
  }

  /** Every dialect collects the values from left to right. */
  lemma {:induction false} CollectsInOrder(binding: Binding, value: Arg, vars: seq<Val>)
    ensures AddedIn(binding, value, vars).1 == vars + Values(value)
    decreases value, 1
  {
    if value.Expr? {
      SplicedCollects(binding, value.template, value.args, vars);
    }
  }

  lemma {:induction false} SplicedCollects(binding: Binding, exp: seq<Tok>, args: seq<Arg>, vars: seq<Val>)
    ensures SplicedIn(binding, exp, args, vars).1 == vars + ValuesAll(args)
    decreases args, 0
  {
    if args != [] {
      var (text, vars') := AddedIn(binding, args[0], vars);
      CollectsInOrder(binding, args[0], vars);
      SplicedCollects(binding, if binding.Skipped? then exp else ReplaceFirst(exp, text), args[1..], vars');
      assert vars + Values(args[0]) + ValuesAll(args[1..]) == vars + (Values(args[0]) + ValuesAll(args[1..]));
    }
  }

  lemma {:induction false} FillTemplate(ts: seq<Tok>, texts: seq<seq<Tok>>)
    requires Template(ts) && forall i :: 0 <= i < |texts| ==> Template(texts[i])
    ensures Template(Fill(ts, texts))
  {
    if ts != [] {
      TailTemplate(ts);
      FillTemplate(ts[1..], if ts[0] == Mark && texts != [] then texts[1..] else texts);
    }
  }

  lemma {:induction false} ReplaceEachTemplate(exp: seq<Tok>, texts: seq<seq<Tok>>)
    requires Template(exp) && Marks(exp) >= |texts| && forall i :: 0 <= i < |texts| ==> Template(texts[i])
    ensures Template(ReplaceEach(exp, texts))
    decreases |texts|
  {
    if texts != [] {
      ReplaceAt(exp, texts[0]);
      ReplaceCount(exp, texts[0]);
      ReplaceEachTemplate(ReplaceFirst(exp, texts[0]), texts[1..]);
    }
  }

  lemma {:induction false} AskedTemplate(value: Arg)
    requires WellMatched(value)
    ensures Template(Asked(value)) && Template(Right(value))
    decreases value
  {
    match value
    case Plain(_) =>
    case Expr(template, args) =>
      forall i | 0 <= i < |args| ensures Template(AskedAll(args)[i]) && Template(RightAll(args)[i]) {
        AskedTemplate(args[i]);
        RightAt(args, i);
      }
      AskedExpr(template, args, []);
      ReplaceEachTemplate(template, AskedAll(args));
      FillTemplate(template, RightAll(args));
  }

  /** For every well-matched tree in which no expression follows an argument that
      carries a value, the text has one '?' for each value collected, in order,
      and with the values in their places it is the tree written out. */
  lemma QuestionOrdered(value: Arg, vars: seq<Val>)
    requires WellMatched(value) && Ordered(value)
    ensures var (text, after) := AddedIn(Question, value, vars);
      && after == vars + Values(value)
      && Marks(text) == |Values(value)|
      && Fill(text, Lits(Values(value))) == Inline(value)
  {
    CollectsInOrder(Question, value, vars);
    AskedAnywhere(value, vars);
    OrderedRight(value);
    RightSays(value);
  }

  /** Where expression arguments begin with a word, that order is needed too; the
      number of '?' is right in any order. */
  lemma QuestionExactly(value: Arg, vars: seq<Val>)
    requires WellMatched(value) && WordsFirst(value)
    ensures var (text, after) := AddedIn(Question, value, vars);
      && after == vars + Values(value)
      && Marks(text) == |Values(value)|
      && (Fill(text, Lits(Values(value))) == Inline(value) <==> Ordered(value))
  {
    hide Fill, Marks, Ordered, WordsFirst, WellMatched, Inline, Right, Asked, Template;
    CollectsInOrder(Question, value, vars);
    AskedAnywhere(value, vars);
    AskedAlike(value);
    RightSays(value);
    if Ordered(value) {
      OrderedRight(value);
    } else if Fill(Asked(value), Lits(Values(value))) == Inline(value) {
      AskedTemplate(value);
      FillInjective(Asked(value), Right(value), Values(value));
      RightOrdered(value);
    }
  }

  /** An input that fails: with arguments v and gorm.Expr("now()"), the template
      "? >= ?" comes out as "now() >= ?", so v is compared from the wrong side. */
  lemma NestedExpressionMisplaced(v: Val)
    ensures var now := [Word("now()")];
      AddedIn(Question, Expr([Mark, Word(">="), Mark], [Plain(v), Expr(now, [])]), [])
        == ([Word("now()"), Word(">="), Mark], [v])
  {
    var exp, now := [Mark, Word(">="), Mark], [Word("now()")];
    var args := [Plain(v), Expr(now, [])];
    assert args[1..] == [Expr(now, [])] && args[1..][1..] == [];
    assert ReplaceFirst(exp, [Mark]) == exp;
    assert ReplaceFirst(exp, now) == [Word("now()"), Word(">="), Mark];
    assert AddedIn(Question, args[0], []) == ([Mark], [v]) by { assert [] + [v] == [v]; }
    assert AddedIn(Question, args[1], [v]) == (now, [v]);
    assert SplicedIn(Question, exp, args, []) == SplicedIn(Question, exp, args[1..], [v]);
  }

  // ---------- bind variables skipped ----------

  lemma {:induction false} SkippedText(exp: seq<Tok>, args: seq<Arg>, vars: seq<Val>)
    ensures SplicedIn(Skipped, exp, args, vars).0 == exp
    decreases |args|
  {
    if args != [] {
      SkippedText(exp, args[1..], AddedIn(Skipped, args[0], vars).1);
    }
  }

  lemma PlainFirst(args: seq<Arg>)
    requires args != [] && args[0].Plain?
    ensures |ValuesAll(args)| > 0 && Lits(ValuesAll(args))[0] == InlineAll(args)[0]
    ensures Lits(ValuesAll(args))[1..] == Lits(ValuesAll(args[1..]))
  {
    assert Values(args[0]) == [args[0].v];
    assert Inline(args[0]) == [Lit(args[0].v)];
    assert ValuesAll(args)[1..] == ValuesAll(args[1..]);
  }

  lemma {:induction false} SkippedFills(exp: seq<Tok>, args: seq<Arg>)
    requires Marks(exp) == |args|
    requires forall i :: 0 <= i < |args| ==> WellMatched(args[i])
    requires forall i :: 0 <= i < |args| && args[i].Expr? ==> args[i].template != [] && args[i].template[0] != Mark
    ensures Fill(exp, Lits(ValuesAll(args))) == Fill(exp, InlineAll(args)) <==> forall i :: 0 <= i < |args| ==> args[i].Plain?
    decreases |args|
  {
    hide Marks, Fill, WellMatched, FirstMark;
    if args == [] {
      assert Lits(ValuesAll(args)) == InlineAll(args);
    } else {
      var vals, m := ValuesAll(args), FirstMark(exp);
      FillAt(exp, InlineAll(args));
      MarksAfterFirst(exp);
      assert InlineAll(args)[1..] == InlineAll(args[1..]);
      if args[0].Plain? {
        PlainFirst(args);
        FillAt(exp, Lits(vals));
        SkippedFills(exp[m + 1..], args[1..]);
        var a, b := Fill(exp[m + 1..], Lits(vals)[1..]), Fill(exp[m + 1..], InlineAll(args[1..]));
        var head := exp[..m] + Lits(vals)[0];
        assert (head + a)[|head|..] == a && (head + b)[|head|..] == b;
        assert forall i :: 1 <= i < |args| ==> args[i] == args[1..][i - 1];
      } else {
        SkippedDiffers(exp, args[0], vals);
      }
    }
  }

  lemma SkippedDiffers(exp: seq<Tok>, value: Arg, vals: seq<Val>)
    requires Marks(exp) > 0 && WellMatched(value) && value.Expr? && value.template != [] && value.template[0] != Mark
    ensures var m := FirstMark(exp);
      && m < |Fill(exp, Lits(vals))| && Inline(value) != []
      && Fill(exp, Lits(vals))[m] != Inline(value)[0]
  {
    hide Marks;
    assert Inline(value)[0] == value.template[0];
    MarkedAt(exp);
    if vals == [] {
      FillNothing(exp, Lits(vals));
    } else {
      FillAt(exp, Lits(vals));
    }
  }

  /** A sub-query's text keeps its template while all values are collected, so it
      says what it should if and only if no argument is itself an expression. */
  lemma SkippedExactly(template: seq<Tok>, args: seq<Arg>, vars: seq<Val>)
    requires WellMatched(Expr(template, args)) && WordsFirst(Expr(template, args))
    ensures var (text, after) := AddedIn(Skipped, Expr(template, args), vars);
      && after == vars + ValuesAll(args)
      && text == template
      && (Fill(text, Lits(ValuesAll(args))) == Inline(Expr(template, args)) <==> forall i :: 0 <= i < |args| ==> args[i].Plain?)
  {
    SplicedCollects(Skipped, template, args, vars);
    SkippedText(template, args, vars);
    SkippedFills(template, args);
  }
}
