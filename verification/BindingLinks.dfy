/**
 The same clause for different dialects. A text built with '?' is compared with
 the numbered text whose numbers are erased: they have the same shape, and they
 are equal exactly when every value's tree fits the way placeholders are printed.
 */
module BindingLinks {
  import opened BindVars
  import opened Options
  import opened QuestionMarks
  import opened SqlReading
  import opened WhereClause

  // ---------- numbers erased ----------

  function EraseTok(t: Tok): Tok { if t.Bind? then Mark else t }

  function Erase(ts: seq<Tok>): (r: seq<Tok>)
    ensures |r| == |ts|
  {
    seq(|ts|, i requires 0 <= i < |ts| => EraseTok(ts[i]))
  }

  /** What a dialect shows of a numbered text. */
  function Shown(binding: Binding, ts: seq<Tok>): (r: seq<Tok>)
    ensures |r| == |ts|
  {
    if binding.Numbered? then ts else Erase(ts)
  }

  function ShownAll(binding: Binding, texts: seq<seq<Tok>>): (r: seq<seq<Tok>>)
    ensures |r| == |texts|
  {
    seq(|texts|, i requires 0 <= i < |texts| => Shown(binding, texts[i]))
  }

  lemma ShownAppend(binding: Binding, a: seq<Tok>, b: seq<Tok>)
    ensures Shown(binding, a + b) == Shown(binding, a) + Shown(binding, b)
  {}

  lemma ShownFixed(binding: Binding, ts: seq<Tok>)
    requires Template(ts)
    ensures Shown(binding, ts) == ts
  {}

  lemma {:induction false} MarksErased(ts: seq<Tok>)
    ensures Marks(Erase(ts)) == Marks(ts) + |BindsOf(ts)|
  {
    if ts != [] {
      MarksErased(ts[1..]);
      assert Erase(ts)[1..] == Erase(ts[1..]);
    }
  }

  // ---------- which trees a dialect prints right ----------

  /** An expression over plain values. */
  predicate Flat(value: Arg) {
    value.Expr? ==> forall i :: 0 <= i < |value.args| ==> value.args[i].Plain?
  }

  /** Numbered placeholders fit every tree; a '?' needs the expressions in front of
      the values; skipped bind variables need plain arguments. */
  predicate Fits(binding: Binding, value: Arg) {
    match binding
    case Numbered => true
    case Question => Ordered(value)
    case Skipped => Flat(value)
  }

  predicate AllFit(binding: Binding, trees: seq<Arg>) {
    forall i :: 0 <= i < |trees| ==> Fits(binding, trees[i])
  }

  predicate AllWordsFirst(trees: seq<Arg>) {
    forall i :: 0 <= i < |trees| ==> WordsFirst(trees[i])
  }

  lemma AllFitAppend(binding: Binding, a: seq<Arg>, b: seq<Arg>)
    ensures AllFit(binding, a + b) <==> AllFit(binding, a) && AllFit(binding, b)
    ensures AllWordsFirst(a + b) <==> AllWordsFirst(a) && AllWordsFirst(b)
  {
    hide Fits, WordsFirst;
    assert forall i :: 0 <= i < |a| ==> (a + b)[i] == a[i];
    assert forall i :: 0 <= i < |b| ==> (a + b)[|a| + i] == b[i];
  }

  // ---------- texts of the same shape ----------

  ghost predicate Twin(a: seq<Tok>, b: seq<Tok>) {
    |a| == |b| && Marks(a) == Marks(b) && Template(a) && Template(b)
  }

  lemma TwinAppend(a: seq<Tok>, a': seq<Tok>, b: seq<Tok>, b': seq<Tok>)
    requires Twin(a, a') && Twin(b, b')
    ensures Twin(a + b, a' + b')
    ensures a + b == a' + b' ==> a == a' && b == b'
  {
    MarksAppend(a, b);
    MarksAppend(a', b');
    assert (a + b)[..|a|] == a && (a' + b')[..|a|] == a';
    assert (a + b)[|a|..] == b && (a' + b')[|a|..] == b';
  }

  /** A text and the numbered one that says the same: for trees that fit, the text
      is the numbered one as the dialect shows it; with '?' it has the same shape in
      any case, and where expressions begin with a word it is that text only if
      the trees fit. */
  ghost predicate Linked(binding: Binding, text: seq<Tok>, numbered: seq<Tok>, trees: seq<Arg>) {
    && (AllFit(binding, trees) ==> text == Shown(binding, numbered))
    && (binding.Question? ==>
          && Twin(text, Shown(binding, numbered))
          && (AllWordsFirst(trees) && text == Shown(binding, numbered) ==> AllFit(binding, trees)))
  }

  ghost predicate ListLinked(binding: Binding, texts: seq<seq<Tok>>, numbered: seq<seq<Tok>>, trees: seq<Arg>) {
    && (AllFit(binding, trees) ==> texts == ShownAll(binding, numbered))
    && (binding.Question? ==>
          && |texts| == |numbered|
          && (forall i :: 0 <= i < |texts| ==> Twin(texts[i], Shown(binding, numbered[i])))
          && (AllWordsFirst(trees) && texts == ShownAll(binding, numbered) ==> AllFit(binding, trees)))
  }

  lemma LinkedFixed(binding: Binding, ts: seq<Tok>)
    requires Template(ts)
    ensures Linked(binding, ts, ts, [])
  {
    ShownFixed(binding, ts);
  }

  lemma LinkedAppend(binding: Binding, a: seq<Tok>, na: seq<Tok>, ta: seq<Arg>, b: seq<Tok>, nb: seq<Tok>, tb: seq<Arg>)
    requires Linked(binding, a, na, ta) && Linked(binding, b, nb, tb)
    ensures Linked(binding, a + b, na + nb, ta + tb)
  {
    hide Twin, AllFit, AllWordsFirst, Shown;
    ShownAppend(binding, na, nb);
    AllFitAppend(binding, ta, tb);
    if binding.Question? {
      TwinAppend(a, Shown(binding, na), b, Shown(binding, nb));
    }
  }

  /** Fixed text around a linked one. */
  lemma LinkedAround(binding: Binding, before: seq<Tok>, text: seq<Tok>, numbered: seq<Tok>, trees: seq<Arg>, after: seq<Tok>)
    requires Linked(binding, text, numbered, trees) && Template(before) && Template(after)
    ensures Linked(binding, before + text + after, before + numbered + after, trees)
  {
    hide Linked;
    LinkedFixed(binding, before);
    LinkedFixed(binding, after);
    LinkedAppend(binding, before, before, [], text, numbered, trees);
    assert [] + trees == trees && trees + [] == trees;
    LinkedAppend(binding, before + text, before + numbered, trees, after, after, []);
  }

  lemma ListLinkedNone(binding: Binding)
    ensures ListLinked(binding, [], [], [])
  {}

  lemma ListLinkedCons(binding: Binding, text: seq<Tok>, numbered: seq<Tok>, tree: seq<Arg>,
                       texts: seq<seq<Tok>>, allNumbered: seq<seq<Tok>>, trees: seq<Arg>)
    requires Linked(binding, text, numbered, tree) && ListLinked(binding, texts, allNumbered, trees)
    ensures ListLinked(binding, [text] + texts, [numbered] + allNumbered, tree + trees)
  {
    hide Twin, AllFit, AllWordsFirst, Shown;
    AllFitAppend(binding, tree, trees);
    var all, shown := [numbered] + allNumbered, ShownAll(binding, [numbered] + allNumbered);
    assert shown == [Shown(binding, numbered)] + ShownAll(binding, allNumbered);
    assert ([text] + texts)[1..] == texts && shown[1..] == ShownAll(binding, allNumbered);
  }

  /** An element that adds nothing to the text. */
  lemma ListLinkedSkip(binding: Binding, numbered: seq<Tok>, tree: seq<Arg>,
                       texts: seq<seq<Tok>>, allNumbered: seq<seq<Tok>>, trees: seq<Arg>)
    requires Linked(binding, [], [], tree) && ListLinked(binding, texts, allNumbered, trees)
    ensures ListLinked(binding, texts, allNumbered, tree + trees)
  {
    AllFitAppend(binding, tree, trees);
    assert Shown(binding, []) == [];
    hide Twin, AllFit, AllWordsFirst, Shown;
  }

  lemma {:induction false} ListLinkedAppend(binding: Binding, a: seq<seq<Tok>>, na: seq<seq<Tok>>, ta: seq<Arg>,
                                            b: seq<seq<Tok>>, nb: seq<seq<Tok>>, tb: seq<Arg>)
    requires ListLinked(binding, a, na, ta) && ListLinked(binding, b, nb, tb)
    ensures ListLinked(binding, a + b, na + nb, ta + tb)
  {
    hide Twin, AllFit, AllWordsFirst, Shown;
    AllFitAppend(binding, ta, tb);
    var shown := ShownAll(binding, na + nb);
    assert shown == ShownAll(binding, na) + ShownAll(binding, nb);
    if binding.Question? {
      assert (a + b)[..|a|] == a && shown[..|a|] == ShownAll(binding, na);
      assert (a + b)[|a|..] == b && shown[|a|..] == ShownAll(binding, nb);
    }
  }

  // ---------- joining and filling ----------

  predicate PlainTok(op: Tok) { !op.Bind? && !op.Lit? && !op.Mark? }

  lemma PlainTemplate(op: Tok)
    requires PlainTok(op)
    ensures Template([op]) && Marks([op]) == 0
  {
    assert [op][1..] == [];
  }

  lemma {:induction false} ShownJoin(binding: Binding, texts: seq<seq<Tok>>, op: Tok)
    requires PlainTok(op)
    ensures Shown(binding, Join(texts, op)) == Join(ShownAll(binding, texts), op)
  {
    hide Shown;
    if |texts| > 1 {
      ShownJoin(binding, texts[1..], op);
      PlainTemplate(op);
      ShownFixed(binding, [op]);
      ShownAppend(binding, texts[0], [op]);
      ShownAppend(binding, texts[0] + [op], Join(texts[1..], op));
      assert ShownAll(binding, texts)[1..] == ShownAll(binding, texts[1..]);
    } else if texts == [] {
      assert Shown(binding, []) == [];
    }
  }

  ghost predicate AllTwin(a: seq<seq<Tok>>, b: seq<seq<Tok>>) {
    |a| == |b| && forall i :: 0 <= i < |a| ==> Twin(a[i], b[i])
  }

  lemma {:induction false} JoinTwin(a: seq<seq<Tok>>, b: seq<seq<Tok>>, op: Tok)
    requires PlainTok(op) && AllTwin(a, b)
    ensures Twin(Join(a, op), Join(b, op))
    ensures Join(a, op) == Join(b, op) ==> a == b
  {
    hide Twin;
    PlainTemplate(op);
    if |a| > 1 {
      JoinTwin(a[1..], b[1..], op);
      SameTwin([op]);
      TwinAppend(a[0], b[0], [op], [op]);
      TwinAppend(a[0] + [op], b[0] + [op], Join(a[1..], op), Join(b[1..], op));
      assert a == [a[0]] + a[1..] && b == [b[0]] + b[1..];
    } else if a == [] {
      SameTwin([]);
    }
  }

  lemma SameTwin(ts: seq<Tok>)
    requires Template(ts)
    ensures Twin(ts, ts)
  {}

  lemma JoinLinked(binding: Binding, texts: seq<seq<Tok>>, numbered: seq<seq<Tok>>, trees: seq<Arg>, op: Tok)
    requires ListLinked(binding, texts, numbered, trees) && PlainTok(op)
    ensures Linked(binding, Join(texts, op), Join(numbered, op), trees)
  {
    hide Twin, AllFit, AllWordsFirst, Shown, Join;
    ShownJoin(binding, numbered, op);
    if binding.Question? {
      JoinTwin(texts, ShownAll(binding, numbered), op);
    }
  }

  lemma {:induction false} ShownFill(binding: Binding, ts: seq<Tok>, texts: seq<seq<Tok>>)
    requires Template(ts) && Marks(ts) == |texts|
    ensures Shown(binding, Fill(ts, texts)) == Fill(ts, ShownAll(binding, texts))
  {
    if ts == [] {
      assert Shown(binding, []) == [];
    } else {
      TailTemplate(ts);
      if ts[0] == Mark {
        ShownFill(binding, ts[1..], texts[1..]);
        ShownAppend(binding, texts[0], Fill(ts[1..], texts[1..]));
        assert ShownAll(binding, texts)[1..] == ShownAll(binding, texts[1..]);
      } else {
        ShownFill(binding, ts[1..], texts);
        assert Template([ts[0]]);
        ShownFixed(binding, [ts[0]]);
        ShownAppend(binding, [ts[0]], Fill(ts[1..], texts));
      }
    }
  }

  lemma {:induction false} FillTwin(ts: seq<Tok>, a: seq<seq<Tok>>, b: seq<seq<Tok>>)
    requires Template(ts) && Marks(ts) == |a| && AllTwin(a, b)
    ensures Twin(Fill(ts, a), Fill(ts, b))
    ensures Fill(ts, a) == Fill(ts, b) ==> a == b
  {
    hide Twin;
    if ts == [] {
      SameTwin([]);
    } else {
      TailTemplate(ts);
      if ts[0] == Mark {
        FillTwin(ts[1..], a[1..], b[1..]);
        TwinAppend(a[0], b[0], Fill(ts[1..], a[1..]), Fill(ts[1..], b[1..]));
        assert a == [a[0]] + a[1..] && b == [b[0]] + b[1..];
      } else {
        FillTwin(ts[1..], a, b);
        assert Template([ts[0]]);
        SameTwin([ts[0]]);
        TwinAppend([ts[0]], [ts[0]], Fill(ts[1..], a), Fill(ts[1..], b));
      }
    }
  }

  lemma FillLinked(binding: Binding, ts: seq<Tok>, texts: seq<seq<Tok>>, numbered: seq<seq<Tok>>, trees: seq<Arg>)
    requires Template(ts) && Marks(ts) == |numbered|
    requires ListLinked(binding, texts, numbered, trees)
    ensures Linked(binding, Fill(ts, texts), Fill(ts, numbered), trees)
  {
    hide Twin, AllFit, AllWordsFirst, Shown, Fill;
    ShownFill(binding, ts, numbered);
    if binding.Question? {
      FillTwin(ts, texts, ShownAll(binding, numbered));
    }
  }

  // ---------- trees ----------

  /** The text with every argument at its own '?' is the numbered text without its numbers. */
  lemma {:induction false} RightIsErased(value: Arg, vars: seq<Val>)
    requires WellMatched(value)
    ensures Right(value) == Erase(Added(value, vars).0)
    decreases value, 1
  {
    match value
    case Plain(_) =>
    case Expr(template, args) =>
      RightAllErased(args, vars);
      AddedFills(template, args, vars);
      ShownFill(Question, template, AddedAll(args, vars).0);
  }

  lemma {:induction false} RightAllErased(args: seq<Arg>, vars: seq<Val>)
    requires forall i :: 0 <= i < |args| ==> WellMatched(args[i])
    ensures RightAll(args) == ShownAll(Question, AddedAll(args, vars).0)
    decreases args, 0
  {
    hide WellMatched, Right, Erase;
    if args == [] {
    } else {
      var (text, mid) := Added(args[0], vars);
      RightIsErased(args[0], vars);
      RightAllErased(args[1..], mid);
      var texts := AddedAll(args, vars).0;
      assert texts == [text] + AddedAll(args[1..], mid).0;
      assert ShownAll(Question, texts) == [Erase(text)] + ShownAll(Question, AddedAll(args[1..], mid).0);
    }
  }

  /** A numbered expression is its template filled. */
  lemma AddedFills(template: seq<Tok>, args: seq<Arg>, vars: seq<Val>)
    requires WellMatched(Expr(template, args))
    ensures Added(Expr(template, args), vars).0 == Fill(template, AddedAll(args, vars).0)
  {
    AddedAllFaithful(args, vars);
    FaithfulNoMarks(AddedAll(args, vars).0, InlineAll(args), vars, AddedAll(args, vars).1);
    AddedExpr(template, args, vars);
    SplicedIsFill(template, args, vars);
  }

  lemma FlatErased(value: Arg, vars: seq<Val>)
    requires WellMatched(value) && Flat(value)
    ensures AddedIn(Skipped, value, vars).0 == Erase(Added(value, vars).0)
  {
    match value
    case Plain(_) =>
    case Expr(template, args) =>
      SkippedText(template, args, vars);
      RightIsErased(value, vars);
      forall i | 0 <= i < |args| ensures RightAll(args)[i] == [Mark] {
        RightAt(args, i);
      }
      FillLone(template, RightAll(args));
  }

  lemma AllOne(binding: Binding, value: Arg)
    ensures AllFit(binding, [value]) <==> Fits(binding, value)
    ensures AllWordsFirst([value]) <==> WordsFirst(value)
  {
    hide Fits, WordsFirst;
    assert [value][0] == value;
  }

  lemma AskedLinked(value: Arg, vars: seq<Val>)
    requires WellMatched(value)
    ensures Linked(Question, Asked(value), Added(value, vars).0, [value])
  {
    hide AllFit, AllWordsFirst, Ordered, WordsFirst, WellMatched;
    AllOne(Question, value);
    RightIsErased(value, vars);
    AskedAlike(value);
    AskedTemplate(value);
    if Ordered(value) { OrderedRight(value); }
    if WordsFirst(value) && Asked(value) == Right(value) { RightOrdered(value); }
  }

  lemma TreeLinked(binding: Binding, value: Arg, vars: seq<Val>)
    requires WellMatched(value)
    ensures Linked(binding, AddedIn(binding, value, vars).0, Added(value, vars).0, [value])
    ensures AddedIn(binding, value, vars).1 == Added(value, vars).1
  {
    CollectsInOrder(binding, value, vars);
    CollectsInOrder(Numbered, value, vars);
    match binding
    case Numbered =>
    case Skipped =>
      AllOne(Skipped, value);
      hide AllFit, AllWordsFirst;
      if Flat(value) { FlatErased(value, vars); }
    case Question =>
      hide Linked;
      AskedAnywhere(value, vars);
      AskedLinked(value, vars);
  }

  lemma {:induction false} AddedAllLinked(binding: Binding, args: seq<Arg>, vars: seq<Val>)
    requires forall i :: 0 <= i < |args| ==> WellMatched(args[i])
    ensures ListLinked(binding, AddedAllIn(binding, args, vars).0, AddedAll(args, vars).0, args)
    ensures AddedAllIn(binding, args, vars).1 == AddedAll(args, vars).1
    decreases |args|
  {
    hide ListLinked, Linked, AddedIn, WellMatched;
    if args == [] {
      ListLinkedNone(binding);
    } else {
      var (text, mid) := AddedIn(binding, args[0], vars);
      TreeLinked(binding, args[0], vars);
      AddedAllLinked(binding, args[1..], mid);
      ListLinkedCons(binding, text, Added(args[0], vars).0, [args[0]],
                     AddedAllIn(binding, args[1..], mid).0, AddedAll(args[1..], mid).0, args[1..]);
      assert [args[0]] + args[1..] == args;
    }
  }
}
