/**
 The whole statement in every dialect, and the sub-query made of it
 (main.go:217-235): as the clause, it is the numbered statement without its
 numbers exactly when all trees fit.
 */
module QueryBinding {
  import opened BindVars
  import opened BindingLinks
  import opened ClauseBinding
  import opened Options
  import opened QuerySql
  import opened QuestionMarks
  import opened Sequences
  import opened SqlReading
  import opened WhereClause
  import opened WhereMeaning

  // ---------- the trees of a query ----------

  function SelectTrees(args: seq<SelectArg>): seq<Arg> {
    if args == [] then []
    else (match args[0] case Single(a) => [a] case Listed(elems) => elems) + SelectTrees(args[1..])
  }

  function OrderTrees(orders: seq<Order>): seq<Arg> {
    if orders == [] then []
    else (match orders[0] case Column(_) => [] case By(template, args) => [Expr(template, args)]) + OrderTrees(orders[1..])
  }

  /** The trees of each part of the statement. */
  function PartTrees(q: QuerySql.Query): seq<seq<Arg>> {
    [SelectTrees(SelectList(q)), ConditionTrees(q.joins), SearchTrees(q.search), [], ConditionTrees(q.having), OrderTrees(q.orders), []]
  }

  function Trees(q: QuerySql.Query): seq<Arg> { Concat(PartTrees(q)) }

  // ---------- the select list and the order ----------

  lemma SelectArgLinked(binding: Binding, c: SelectArg, vars: seq<Val>)
    requires SelectMatched([c])
    ensures var trees := match c case Single(a) => [a] case Listed(elems) => elems;
      Linked(binding, SelectText(binding, c, vars).0, SelectText(Numbered, c, vars).0, trees)
    ensures SelectText(binding, c, vars).1 == SelectText(Numbered, c, vars).1
  {
    assert [c][0] == c;
    hide Linked, ListLinked, WellMatched, AddedIn;
    match c
    case Single(a) => TreeLinked(binding, a, vars);
    case Listed(elems) =>
      AddedAllLinked(binding, elems, vars);
      JoinLinked(binding, AddedAllIn(binding, elems, vars).0, AddedAllIn(Numbered, elems, vars).0, elems, Word(","));
  }

  lemma {:induction false} SelectLinked(binding: Binding, args: seq<SelectArg>, vars: seq<Val>)
    requires SelectMatched(args)
    ensures ListLinked(binding, SelectTexts(binding, args, vars).0, SelectTexts(Numbered, args, vars).0, SelectTrees(args))
    ensures SelectTexts(binding, args, vars).1 == SelectTexts(Numbered, args, vars).1
  {
    hide ListLinked, Linked, WellMatched, SelectText;
    if args == [] {
      ListLinkedNone(binding);
    } else {
      var (text, mid) := SelectText(binding, args[0], vars);
      assert SelectMatched([args[0]]) && SelectMatched(args[1..]);
      SelectArgLinked(binding, args[0], vars);
      SelectLinked(binding, args[1..], mid);
      var tree := match args[0] case Single(a) => [a] case Listed(elems) => elems;
      ListLinkedCons(binding, text, SelectText(Numbered, args[0], vars).0, tree,
                     SelectTexts(binding, args[1..], mid).0, SelectTexts(Numbered, args[1..], mid).0, SelectTrees(args[1..]));
    }
  }

  /** Plain values leave a template whose '?' are kept as it is. */
  lemma {:induction false} OrderFlat(exp: seq<Tok>, args: seq<Arg>, vars: seq<Val>)
    requires forall i :: 0 <= i < |args| ==> args[i].Plain?
    ensures OrderSpliced(Skipped, exp, args, vars).0 == exp
    decreases |args|
  {
    if args != [] {
      ReplaceMark(exp);
      OrderFlat(exp, args[1..], AddedIn(Skipped, args[0], vars).1);
    }
  }

  lemma {:induction false} OrderCollects(binding: Binding, exp: seq<Tok>, args: seq<Arg>, vars: seq<Val>)
    ensures OrderSpliced(binding, exp, args, vars).1 == vars + ValuesAll(args)
    decreases |args|
  {
    if args != [] {
      var (text, vars') := AddedIn(binding, args[0], vars);
      CollectsInOrder(binding, args[0], vars);
      OrderCollects(binding, ReplaceFirst(exp, text), args[1..], vars');
      assert vars + Values(args[0]) + ValuesAll(args[1..]) == vars + (Values(args[0]) + ValuesAll(args[1..]));
    }
  }

  lemma OrderLinked(binding: Binding, template: seq<Tok>, args: seq<Arg>, vars: seq<Val>)
    requires WellMatched(Expr(template, args))
    ensures Linked(binding, OrderSpliced(binding, template, args, vars).0, OrderSpliced(Numbered, template, args, vars).0,
                   [Expr(template, args)])
    ensures OrderSpliced(binding, template, args, vars).1 == OrderSpliced(Numbered, template, args, vars).1
  {
    hide Linked, WellMatched;
    var value := Expr(template, args);
    OrderCollects(binding, template, args, vars);
    OrderCollects(Numbered, template, args, vars);
    OrderIsSpliced(Numbered, template, args, vars);
    AddedExpr(template, args, vars);
    TreeLinked(binding, value, vars);
    if binding.Skipped? {
      AllOne(Skipped, value);
      if Flat(value) {
        OrderFlat(template, args, vars);
        SkippedText(template, args, vars);
      } else {
        Vacuous(Skipped, [value], OrderSpliced(binding, template, args, vars).0, OrderSpliced(Numbered, template, args, vars).0, [], []);
      }
    } else {
      OrderIsSpliced(binding, template, args, vars);
    }
  }

  lemma {:induction false} OrdersLinked(binding: Binding, orders: seq<Order>, vars: seq<Val>)
    requires forall i :: 0 <= i < |orders| ==> orders[i].By? ==> WellMatched(Expr(orders[i].template, orders[i].args))
    ensures ListLinked(binding, OrderTexts(binding, orders, vars).0, OrderTexts(Numbered, orders, vars).0, OrderTrees(orders))
    ensures OrderTexts(binding, orders, vars).1 == OrderTexts(Numbered, orders, vars).1
  {
    hide ListLinked, Linked, WellMatched, OrderSpliced;
    if orders == [] {
      ListLinkedNone(binding);
    } else {
      var (text, mid) := OrderText(binding, orders[0], vars);
      match orders[0] {
        case Column(name) => LinkedFixed(binding, [Word(name)]);
        case By(template, args) => OrderLinked(binding, template, args, vars);
      }
      OrdersLinked(binding, orders[1..], mid);
      var tree := match orders[0] case Column(_) => [] case By(template, args) => [Expr(template, args)];
      ListLinkedCons(binding, text, OrderText(Numbered, orders[0], vars).0, tree,
                     OrderTexts(binding, orders[1..], mid).0, OrderTexts(Numbered, orders[1..], mid).0, OrderTrees(orders[1..]));
    }
  }

  // ---------- parentheses at the ends ----------

  /** The first token of a condition, and its last. */
  function Opening(q: WhereClause.Query, positive: bool): Tok {
    if q.Text? && !positive && q.comparison then Not else Open
  }

  predicate Framed(first: Tok, text: seq<Tok>) {
    text != [] ==> |text| >= 2 && text[0] == first && text[|text| - 1] == Close
  }

  predicate AllFramed(texts: seq<seq<Tok>>) {
    forall i :: 0 <= i < |texts| ==> texts[i] != [] && Framed(Open, texts[i])
  }

  lemma {:induction false} JoinFramed(texts: seq<seq<Tok>>)
    requires AllFramed(texts)
    ensures Framed(Open, Join(texts, And))
  {
    if |texts| > 1 {
      JoinFramed(texts[1..]);
    }
  }

  lemma {:induction false} EntriesFramed(binding: Binding, m: Model, entries: seq<(string, Option<Arg>)>, positive: bool, vars: seq<Val>)
    ensures AllFramed(EntryTexts(binding, m, entries, positive, vars).0)
  {
    if entries != [] {
      var (text, mid) := EntryText(binding, m, entries[0], positive, vars);
      assert text[0] == Open && text[|text| - 1] == Close;
      EntriesFramed(binding, m, entries[1..], positive, mid);
      assert EntryTexts(binding, m, entries, positive, vars).0 == [text] + EntryTexts(binding, m, entries[1..], positive, mid).0;
    }
  }

  lemma ConditionFramed(binding: Binding, m: Model, q: WhereClause.Query, positive: bool, vars: seq<Val>)
    ensures Framed(Opening(q, positive), Condition(binding, m, q, positive, vars).0)
  {
    hide AddedIn, ArgTexts, EntryTexts, Join, Fill, WhereClause.EntryText;
    match q
    case Key(_) =>
    case Number(_) =>
    case Keys(elems) =>
      FillGroup([Qualified(m, m.primaryKey), InOpen(positive), Mark, Word(")")], ArgTexts(binding, [Many(elems)], vars).0);
    case Text(body, args, comparison, column) =>
      var texts := ArgTexts(binding, args, vars).0;
      FillGroup(body, texts);
      FillGroup([Qualified(m, column), InOpen(false), Mark, Word(")")], texts);
      FillEmpty(texts);
    case Columns(entries) =>
      EntriesFramed(binding, m, entries, positive, vars);
      JoinFramed(EntryTexts(binding, m, entries, positive, vars).0);
    case Struct(structTable, fields) =>
      EntriesFramed(binding, m.(table := structTable), StructEntries(fields), positive, vars);
      JoinFramed(EntryTexts(binding, m.(table := structTable), StructEntries(fields), positive, vars).0);
  }

  lemma FillEmpty(texts: seq<seq<Tok>>)
    ensures Fill([], texts) == []
  {}

  /** Two texts that begin with the same parenthesis or NOT, and end with one. */
  predicate Capped(a: seq<Tok>, b: seq<Tok>) {
    a != [] && b != [] && a[0] == b[0] && a[|a| - 1] == b[|b| - 1] == Close
  }

  predicate AllCapped(a: seq<seq<Tok>>, b: seq<seq<Tok>>) {
    |a| == |b| && forall i :: 0 <= i < |a| ==> Capped(a[i], b[i])
  }

  predicate SameEnds(a: seq<Tok>, b: seq<Tok>) {
    && (a == [] <==> b == [])
    && (a != [] ==> (a[0] == Open <==> b[0] == Open) && (a[|a| - 1] == Close <==> b[|b| - 1] == Close))
  }

  lemma {:induction false} ConditionsCapped(m: Model, qs: seq<WhereClause.Query>, positive: bool, vars: seq<Val>)
    requires forall i :: 0 <= i < |qs| ==> Matched(m, qs[i], positive)
    ensures AllCapped(Conditions(Question, m, qs, positive, vars).0, Conditions(Numbered, m, qs, positive, vars).0)
  {
    hide Condition, Matched, Opening, Linked;
    if qs != [] {
      var (text, mid) := Condition(Question, m, qs[0], positive, vars);
      var numbered := Condition(Numbered, m, qs[0], positive, vars).0;
      ConditionLinked(Question, m, qs[0], positive, vars);
      SameLength(Question, text, numbered, QueryTrees(qs[0]));
      ConditionFramed(Question, m, qs[0], positive, vars);
      ConditionFramed(Numbered, m, qs[0], positive, vars);
      ConditionsCapped(m, qs[1..], positive, mid);
    }
  }

  lemma {:induction false} JoinCapped(a: seq<seq<Tok>>, b: seq<seq<Tok>>, op: Tok)
    requires AllCapped(a, b)
    ensures if a == [] then Join(a, op) == Join(b, op) == [] else Capped(Join(a, op), Join(b, op))
  {
    if |a| > 1 {
      JoinCapped(a[1..], b[1..], op);
    }
  }

  /** A filter begins with a word, and does not end with a parenthesis of its own. */
  predicate Bare(text: seq<Tok>) {
    text != [] && text[0] != Open && text[|text| - 1] != Close
  }

  lemma {:induction false} KeysBare(binding: Binding, m: Model, keys: seq<(string, Val)>, vars: seq<Val>)
    ensures forall i :: 0 <= i < |keys| ==> Bare(KeyTexts(binding, m, keys, vars).0[i])
  {
    if keys != [] {
      KeysBare(binding, m, keys[1..], vars + [keys[0].1]);
      var texts := KeyTexts(binding, m, keys, vars).0;
      forall i | 0 <= i < |keys| ensures Bare(texts[i]) {
        if i > 0 { assert texts[i] == KeyTexts(binding, m, keys[1..], vars + [keys[0].1]).0[i - 1]; }
      }
    }
  }

  lemma {:induction false} JoinBare(texts: seq<seq<Tok>>, op: Tok)
    requires texts != [] && forall i :: 0 <= i < |texts| ==> Bare(texts[i])
    ensures Bare(Join(texts, op))
  {
    if |texts| > 1 {
      JoinBare(texts[1..], op);
    }
  }

  lemma PrimaryBare(binding: Binding, m: Model, s: Search, vars: seq<Val>)
    ensures var texts := PrimaryTexts(binding, m, s, vars).0;
      texts != [] ==> Bare(Join(texts, And))
  {
    KeysBare(binding, m, s.keys, vars);
    var texts, keys := PrimaryTexts(binding, m, s, vars).0, KeyTexts(binding, m, s.keys, vars).0;
    if texts != [] {
      forall i | 0 <= i < |texts| ensures Bare(texts[i]) {
        if SoftDelete(s) && i > 0 { assert texts[i] == keys[i - 1]; }
      }
      JoinBare(texts, And);
    }
  }

  lemma CombineEnds(ands: seq<seq<Tok>>, nands: seq<seq<Tok>>, ors: seq<seq<Tok>>, nors: seq<seq<Tok>>)
    requires AllCapped(ands, nands) && AllCapped(ors, nors)
    ensures var c, nc := Combine(ands, ors), Combine(nands, nors); c == nc == [] || Capped(c, nc)
  {
    JoinCapped(ands, nands, And);
    JoinCapped(ors, nors, Or);
    hide Join, AllCapped;
  }

  lemma WhereEnds(m: Model, s: Search, vars: seq<Val>)
    requires AllMatched(m, s)
    ensures SameEnds(Where(Question, m, s, vars).0, Where(Numbered, m, s, vars).0)
  {
    hide PrimaryTexts, Conditions, Matched, Combine, Join, ListLinked;
    var (primary, v1) := PrimaryTexts(Question, m, s, vars);
    var (wheres, v2) := Conditions(Question, m, s.wheres, true, v1);
    var (ors, v3) := Conditions(Question, m, s.ors, true, v2);
    var (nots, v4) := Conditions(Question, m, s.nots, false, v3);
    PrimaryLinked(Question, m, s, vars);
    PrimaryBare(Question, m, s, vars);
    PrimaryBare(Numbered, m, s, vars);
    ConditionsLinked(Question, m, s.wheres, true, v1);
    ConditionsLinked(Question, m, s.ors, true, v2);
    ConditionsCapped(m, s.wheres, true, v1);
    ConditionsCapped(m, s.ors, true, v2);
    ConditionsCapped(m, s.nots, false, v3);
    var nands := Conditions(Numbered, m, s.wheres, true, v1).0 + Conditions(Numbered, m, s.nots, false, v3).0;
    var nors := Conditions(Numbered, m, s.ors, true, v2).0;
    assert AllCapped(wheres + nots, nands);
    CombineEnds(wheres + nots, nands, ors, nors);
    AssembleEnds(primary, PrimaryTexts(Numbered, m, s, vars).0, wheres + nots, nands, ors, nors);
  }

  lemma AssembleEnds(primary: seq<seq<Tok>>, nprimary: seq<seq<Tok>>, ands: seq<seq<Tok>>, nands: seq<seq<Tok>>,
                     ors: seq<seq<Tok>>, nors: seq<seq<Tok>>)
    requires |primary| == |nprimary|
    requires primary != [] ==> Bare(Join(primary, And)) && Bare(Join(nprimary, And))
    requires var c, nc := Combine(ands, ors), Combine(nands, nors); c == nc == [] || Capped(c, nc)
    ensures SameEnds(Assemble(primary, ands, ors), Assemble(nprimary, nands, nors))
  {
    hide Join, Combine;
  }

  // ---------- parentheses taken off ----------

  lemma ShownSlice(binding: Binding, ts: seq<Tok>, i: nat, j: nat)
    requires i <= j <= |ts|
    ensures Shown(binding, ts[i..j]) == Shown(binding, ts)[i..j]
  {}

  lemma ShownEnds(binding: Binding, ts: seq<Tok>)
    ensures forall i :: 0 <= i < |ts| ==>
      (Shown(binding, ts)[i] == Open <==> ts[i] == Open) && (Shown(binding, ts)[i] == Close <==> ts[i] == Close)
  {}

  lemma ShownWithout(binding: Binding, ts: seq<Tok>)
    ensures Shown(binding, WithoutOpen(ts)) == WithoutOpen(Shown(binding, ts))
    ensures Shown(binding, WithoutClose(ts)) == WithoutClose(Shown(binding, ts))
  {
    hide Shown;
    ShownEnds(binding, ts);
    if ts != [] {
      ShownSlice(binding, ts, 1, |ts|);
      ShownSlice(binding, ts, 0, |ts| - 1);
      var shown := Shown(binding, ts);
      assert ts[1..] == ts[1..|ts|] && shown[1..] == shown[1..|ts|];
      assert ts[..|ts| - 1] == ts[0..|ts| - 1] && shown[..|ts| - 1] == shown[0..|ts| - 1];
    }
  }

  lemma ShownTrimmed(binding: Binding, ts: seq<Tok>)
    ensures Shown(binding, Trimmed(ts)) == Trimmed(Shown(binding, ts))
    ensures Shown(binding, Unwrapped(ts)) == Unwrapped(Shown(binding, ts))
  {
    hide Shown, WithoutOpen, WithoutClose;
    ShownWithout(binding, ts);
    ShownWithout(binding, WithoutOpen(ts));
    UnwrappedIs(ts);
    UnwrappedIs(Shown(binding, ts));
    ShownEnds(binding, ts);
    assert Template([Word("WHERE")]) by { PlainTemplate(Word("WHERE")); }
    ShownFixed(binding, [Word("WHERE")]);
    ShownAppend(binding, [Word("WHERE")], ts);
    ShownWithout(binding, [Word("WHERE")] + ts);
  }

  lemma UnwrappedIs(ts: seq<Tok>)
    ensures Unwrapped(ts) == if ts != [] && ts[0] != Open then WithoutClose([Word("WHERE")] + ts) else Trimmed(ts)
  {}

  lemma OpenTwin(a: seq<Tok>, b: seq<Tok>)
    requires Twin(a, b) && (a != [] ==> (a[0] == Open <==> b[0] == Open))
    ensures Twin(WithoutOpen(a), WithoutOpen(b))
    ensures WithoutOpen(a) == WithoutOpen(b) ==> a == b
  {
    if a != [] && a[0] == Open {
      TailTemplate(a);
      TailTemplate(b);
      assert a == [Open] + a[1..] && b == [Open] + b[1..];
    }
  }

  lemma CloseTwin(a: seq<Tok>, b: seq<Tok>)
    requires Twin(a, b) && (a != [] ==> (a[|a| - 1] == Close <==> b[|b| - 1] == Close))
    ensures Twin(WithoutClose(a), WithoutClose(b))
    ensures WithoutClose(a) == WithoutClose(b) ==> a == b
  {
    if a != [] && a[|a| - 1] == Close {
      var n := |a| - 1;
      assert a == a[..n] + [Close] && b == b[..n] + [Close];
      PlainTemplate(Close);
      MarksAppend(a[..n], [Close]);
      MarksAppend(b[..n], [Close]);
      assert Template(a[..n]) && Template(b[..n]);
    }
  }

  lemma TrimTwin(a: seq<Tok>, b: seq<Tok>)
    requires Twin(a, b) && SameEnds(a, b)
    ensures Twin(Trimmed(a), Trimmed(b))
    ensures Trimmed(a) == Trimmed(b) ==> a == b
  {
    hide Twin;
    TwinLength(a, b);
    OpenTwin(a, b);
    CloseTwin(WithoutOpen(a), WithoutOpen(b));
  }

  lemma TwinLength(a: seq<Tok>, b: seq<Tok>)
    requires Twin(a, b)
    ensures |a| == |b|
  {}

  lemma UnwrapTwin(a: seq<Tok>, b: seq<Tok>)
    requires Twin(a, b) && SameEnds(a, b)
    ensures Twin(Unwrapped(a), Unwrapped(b))
    ensures Unwrapped(a) == Unwrapped(b) ==> a == b
  {
    TrimTwin(a, b);
    UnwrappedIs(a);
    UnwrappedIs(b);
    TwinLength(a, b);
    PlainTemplate(Word("WHERE"));
    SameTwin([Word("WHERE")]);
    TwinAppend([Word("WHERE")], [Word("WHERE")], a, b);
    hide Twin, Unwrapped, Trimmed, WithoutClose;
    if a != [] && a[0] != Open {
      var wa, wb := [Word("WHERE")] + a, [Word("WHERE")] + b;
      assert wa[|wa| - 1] == a[|a| - 1] && wb[|wb| - 1] == b[|b| - 1];
      CloseTwin(wa, wb);
    }
  }

  lemma {:induction false} TrimAllAt(texts: seq<seq<Tok>>, i: nat)
    requires i < |texts|
    ensures TrimAll(texts)[i] == Trimmed(texts[i])
  {
    if i > 0 {
      TrimAllAt(texts[1..], i - 1);
    }
  }

  lemma TrimAllShown(binding: Binding, texts: seq<seq<Tok>>)
    ensures TrimAll(ShownAll(binding, texts)) == ShownAll(binding, TrimAll(texts))
  {
    hide Shown, Trimmed;
    forall i | 0 <= i < |texts| ensures TrimAll(ShownAll(binding, texts))[i] == ShownAll(binding, TrimAll(texts))[i] {
      TrimAllAt(texts, i);
      TrimAllAt(ShownAll(binding, texts), i);
      ShownTrimmed(binding, texts[i]);
    }
  }

  lemma CappedShown(text: seq<Tok>, numbered: seq<Tok>)
    requires Capped(text, numbered) || SameEnds(text, numbered)
    ensures SameEnds(text, Shown(Question, numbered))
  {}

  lemma TrimAllLinked(binding: Binding, texts: seq<seq<Tok>>, numbered: seq<seq<Tok>>, trees: seq<Arg>)
    requires ListLinked(binding, texts, numbered, trees) && (binding.Question? ==> AllCapped(texts, numbered))
    ensures ListLinked(binding, TrimAll(texts), TrimAll(numbered), trees)
  {
    hide Twin, AllFit, AllWordsFirst, Shown, Trimmed, SameEnds, Capped;
    TrimAllShown(binding, numbered);
    if binding.Question? {
      forall i | 0 <= i < |texts|
        ensures Twin(TrimAll(texts)[i], Shown(binding, TrimAll(numbered)[i]))
        ensures TrimAll(texts)[i] == Shown(binding, TrimAll(numbered)[i]) ==> texts[i] == Shown(binding, numbered[i])
      {
        TrimAllAt(texts, i);
        TrimAllAt(numbered, i);
        ShownTrimmed(binding, numbered[i]);
        CappedShown(texts[i], numbered[i]);
        TrimTwin(texts[i], Shown(binding, numbered[i]));
      }
      if TrimAll(texts) == ShownAll(binding, TrimAll(numbered)) {
        forall i | 0 <= i < |texts| ensures texts[i] == ShownAll(binding, numbered)[i] {
          assert TrimAll(texts)[i] == ShownAll(binding, TrimAll(numbered))[i];
        }
        assert texts == ShownAll(binding, numbered);
      }
    }
  }

  lemma UnwrapLinked(binding: Binding, text: seq<Tok>, numbered: seq<Tok>, trees: seq<Arg>)
    requires Linked(binding, text, numbered, trees) && (binding.Question? ==> SameEnds(text, numbered))
    ensures Linked(binding, Unwrapped(text), Unwrapped(numbered), trees)
  {
    hide Twin, AllFit, AllWordsFirst, Shown, Unwrapped, SameEnds;
    ShownTrimmed(binding, numbered);
    if binding.Question? {
      CappedShown(text, numbered);
      UnwrapTwin(text, Shown(binding, numbered));
    }
  }

  // ---------- the statement ----------

  lemma ClauseLinked(binding: Binding, keyword: string, text: seq<Tok>, numbered: seq<Tok>, trees: seq<Arg>)
    requires Linked(binding, text, numbered, trees)
    ensures Linked(binding, Clause(keyword, text), Clause(keyword, numbered), trees)
  {
    hide Linked;
    SameLength(binding, text, numbered, trees);
    if |text| != |numbered| {
      Vacuous(binding, trees, Clause(keyword, text), Clause(keyword, numbered), [], []);
    } else {
      LinkedFixed(binding, [Word(keyword)]);
      LinkedAppend(binding, [Word(keyword)], [Word(keyword)], [], text, numbered, trees);
      assert [] + trees == trees;
    }
  }

  lemma {:induction false} ShownConcat(binding: Binding, parts: seq<seq<Tok>>)
    ensures Shown(binding, Concat(parts)) == Concat(ShownAll(binding, parts))
  {
    hide Shown;
    if parts == [] {
      assert Shown(binding, []) == [];
    } else {
      ShownConcat(binding, parts[1..]);
      ShownAppend(binding, parts[0], Concat(parts[1..]));
      assert ShownAll(binding, parts)[1..] == ShownAll(binding, parts[1..]);
    }
  }

  lemma {:induction false} ConcatTwin(a: seq<seq<Tok>>, b: seq<seq<Tok>>)
    requires AllTwin(a, b)
    ensures Twin(Concat(a), Concat(b))
    ensures Concat(a) == Concat(b) ==> a == b
  {
    hide Twin;
    if a == [] {
      SameTwin([]);
    } else {
      ConcatTwin(a[1..], b[1..]);
      TwinAppend(a[0], b[0], Concat(a[1..]), Concat(b[1..]));
      assert a == [a[0]] + a[1..] && b == [b[0]] + b[1..];
    }
  }

  lemma ConcatLinked(binding: Binding, parts: seq<seq<Tok>>, numbered: seq<seq<Tok>>, trees: seq<Arg>)
    requires ListLinked(binding, parts, numbered, trees)
    ensures Linked(binding, Concat(parts), Concat(numbered), trees)
  {
    hide Twin, AllFit, AllWordsFirst, Shown, Concat;
    ShownConcat(binding, numbered);
    if binding.Question? {
      ConcatTwin(parts, ShownAll(binding, numbered));
    }
  }

  lemma {:induction false} PartsLinked(binding: Binding, parts: seq<seq<Tok>>, numbered: seq<seq<Tok>>, trees: seq<seq<Arg>>)
    requires |parts| == |numbered| == |trees|
    requires forall i :: 0 <= i < |parts| ==> Linked(binding, parts[i], numbered[i], trees[i])
    ensures ListLinked(binding, parts, numbered, Concat(trees))
  {
    hide Linked, ListLinked;
    if parts == [] {
      ListLinkedNone(binding);
    } else {
      PartsLinked(binding, parts[1..], numbered[1..], trees[1..]);
      ListLinkedCons(binding, parts[0], numbered[0], trees[0], parts[1..], numbered[1..], Concat(trees[1..]));
      assert [parts[0]] + parts[1..] == parts && [numbered[0]] + numbered[1..] == numbered;
    }
  }

  lemma HeadLinked(binding: Binding, m: Model, q: QuerySql.Query, columns: seq<Tok>, numbered: seq<Tok>, trees: seq<Arg>)
    requires Linked(binding, columns, numbered, trees)
    ensures Linked(binding, Head(m, q, columns), Head(m, q, numbered), trees)
  {
    hide Linked;
    LinkedAround(binding, [Word("SELECT")], columns, numbered, trees, [Word("FROM"), Word(m.table)]);
  }

  lemma PreparedLinked(binding: Binding, m: Model, q: QuerySql.Query)
    requires QueryMatched(m, q)
    ensures Linked(binding, Prepared(binding, m, q).0, Prepared(Numbered, m, q).0, Trees(q))
    ensures Prepared(binding, m, q).1 == Prepared(Numbered, m, q).1
  {
    hide Linked, ListLinked, SelectTexts, Conditions, Where, OrderTexts, Fill, Matched, SelectMatched, Join, TrimAll,
         Head, Clause, Unwrapped, SelectTrees, ConditionTrees, SearchTrees, OrderTrees, Concat, Marks, Template;
    var (cols, v1) := SelectTexts(binding, SelectList(q), []);
    var (joins, v2) := Conditions(binding, m, q.joins, true, v1);
    var (cond, v3) := Where(binding, m, q.search, v2);
    var (having, v4) := Conditions(binding, m, q.having, true, v3);
    var (orders, v5) := OrderTexts(binding, q.orders, v4);
    SelectLinked(binding, SelectList(q), []);
    var ncols := SelectTexts(Numbered, SelectList(q), []).0;
    FillLinked(binding, SelectTemplate(q), cols, ncols, SelectTrees(SelectList(q)));
    HeadLinked(binding, m, q, Fill(SelectTemplate(q), cols), Fill(SelectTemplate(q), ncols), SelectTrees(SelectList(q)));
    ConditionsLinked(binding, m, q.joins, true, v1);
    var njoins := Conditions(Numbered, m, q.joins, true, v1).0;
    if binding.Question? { ConditionsCapped(m, q.joins, true, v1); }
    TrimAllLinked(binding, joins, njoins, ConditionTrees(q.joins));
    JoinLinked(binding, TrimAll(joins), TrimAll(njoins), ConditionTrees(q.joins), Word(" "));
    WhereLinked(binding, m, q.search, v2);
    var ncond := Where(Numbered, m, q.search, v2).0;
    if binding.Question? { WhereEnds(m, q.search, v2); }
    UnwrapLinked(binding, cond, ncond, SearchTrees(q.search));
    ClauseLinked(binding, "WHERE", cond, ncond, SearchTrees(q.search));
    ConditionsLinked(binding, m, q.having, true, v3);
    var nhaving := Conditions(Numbered, m, q.having, true, v3).0;
    JoinLinked(binding, having, nhaving, ConditionTrees(q.having), And);
    ClauseLinked(binding, "HAVING", Join(having, And), Join(nhaving, And), ConditionTrees(q.having));
    OrdersLinked(binding, q.orders, v4);
    var norders := OrderTexts(Numbered, q.orders, v4).0;
    JoinLinked(binding, orders, norders, OrderTrees(q.orders), Word(","));
    ClauseLinked(binding, "ORDER BY", Join(orders, Word(",")), Join(norders, Word(",")), OrderTrees(q.orders));
    LinkedFixed(binding, q.group);
    ClauseLinked(binding, "GROUP BY", q.group, q.group, []);
    assert Template([Word(q.tail)]) by { PlainTemplate(Word(q.tail)); }
    LinkedFixed(binding, [Word(q.tail)]);
    var parts := Parts(m, q, Fill(SelectTemplate(q), cols), TrimAll(joins), cond, having, orders);
    var nparts := Parts(m, q, Fill(SelectTemplate(q), ncols), TrimAll(njoins), ncond, nhaving, norders);
    PartsLinked(binding, parts, nparts, PartTrees(q));
    ConcatLinked(binding, parts, nparts, Trees(q));
  }

  // ---------- no '?' in the numbered statement ----------

  lemma {:induction false} MarksConcat(parts: seq<seq<Tok>>)
    requires forall i :: 0 <= i < |parts| ==> Marks(parts[i]) == 0
    ensures Marks(Concat(parts)) == 0
  {
    hide Marks;
    if parts == [] {
      assert Marks([]) == 0 by { FixedFaithful([], []); }
    } else {
      MarksConcat(parts[1..]);
      MarksAppend(parts[0], Concat(parts[1..]));
    }
  }

  lemma MarksClause(keyword: string, ts: seq<Tok>)
    ensures Marks(Clause(keyword, ts)) == Marks(ts)
  {
    PlainTemplate(Word(keyword));
    MarksAppend([Word(keyword)], ts);
  }

  lemma MarksHead(m: Model, q: QuerySql.Query, columns: seq<Tok>)
    ensures Marks(Head(m, q, columns)) == Marks(columns)
  {
    hide Marks;
    PlainTemplate(Word("SELECT"));
    PlainTemplate(Word("FROM"));
    PlainTemplate(Word(m.table));
    MarksAppend([Word("FROM")], [Word(m.table)]);
    assert [Word("FROM")] + [Word(m.table)] == [Word("FROM"), Word(m.table)];
    MarksAppend([Word("SELECT")], columns);
    MarksAppend([Word("SELECT")] + columns, [Word("FROM"), Word(m.table)]);
  }

  lemma MarksUnwrapped(ts: seq<Tok>)
    ensures Marks(Unwrapped(ts)) == Marks(ts)
  {
    MarksTrimmed(ts);
    UnwrappedIs(ts);
    if ts != [] && ts[0] != Open {
      PlainTemplate(Word("WHERE"));
      MarksAppend([Word("WHERE")], ts);
      MarksTrimmed([Word("WHERE")] + ts);
    }
  }

  lemma TrimAllNoMarks(texts: seq<seq<Tok>>)
    requires forall i :: 0 <= i < |texts| ==> Marks(texts[i]) == 0
    ensures forall i :: 0 <= i < |texts| ==> Marks(TrimAll(texts)[i]) == 0
  {
    hide Marks, Trimmed;
    forall i | 0 <= i < |texts| ensures Marks(TrimAll(texts)[i]) == 0 {
      TrimAllAt(texts, i);
      MarksTrimmed(texts[i]);
    }
  }

  lemma PreparedNoMarks(m: Model, q: QuerySql.Query)
    requires QueryMatched(m, q)
    ensures Marks(Prepared(Numbered, m, q).0) == 0
  {
    hide SelectTexts, Conditions, Where, OrderTexts, Fill, Matched, SelectMatched, Join, TrimAll, Head, Clause, Unwrapped,
         Concat, Marks, Template, FaithfulList;
    var (cols, v1) := SelectTexts(Numbered, SelectList(q), []);
    var (joins, v2) := Conditions(Numbered, m, q.joins, true, v1);
    var (cond, v3) := Where(Numbered, m, q.search, v2);
    var (having, v4) := Conditions(Numbered, m, q.having, true, v3);
    var (orders, v5) := OrderTexts(Numbered, q.orders, v4);
    SelectFaithful(SelectList(q), []);
    FillFaithful(SelectTemplate(q), cols, SelectSays(SelectList(q)), [], v1);
    MarksHead(m, q, Fill(SelectTemplate(q), cols));
    ConditionsFaithful(m, q.joins, true, v1);
    FaithfulNoMarks(joins, AllSay(m, q.joins, true), v1, v2);
    TrimAllNoMarks(joins);
    MarksJoin(TrimAll(joins), Word(" "));
    WhereNoMarks(m, q.search, v2);
    MarksClause("WHERE", cond);
    MarksUnwrapped(cond);
    MarksClause("GROUP BY", q.group);
    ConditionsFaithful(m, q.having, true, v3);
    FaithfulNoMarks(having, AllSay(m, q.having, true), v3, v4);
    MarksJoin(having, And);
    MarksClause("HAVING", Join(having, And));
    OrdersFaithful(q.orders, v4);
    FaithfulNoMarks(orders, OrdersSay(q.orders), v4, v5);
    MarksJoin(orders, Word(","));
    MarksClause("ORDER BY", Join(orders, Word(",")));
    PlainTemplate(Word(q.tail));
    MarksConcat(Parts(m, q, Fill(SelectTemplate(q), cols), TrimAll(joins), cond, having, orders));
  }

  // ---------- the statement in every dialect ----------

  /** With '?' the statement has exactly one for every value, wherever they stand. */
  lemma PreparedMarks(m: Model, q: QuerySql.Query)
    requires QueryMatched(m, q)
    ensures var (sql, vars) := Prepared(Question, m, q);
      vars == Prepared(Numbered, m, q).1 && Marks(sql) == |vars|
  {
    hide Prepared, Erase, Marks, BindsOf, Template;
    PreparedLinked(Question, m, q);
    PreparedPlaceholders(m, q);
    PreparedNoMarks(m, q);
    MarksErased(Prepared(Numbered, m, q).0);
  }

  /** For trees that fit the dialect, the statement is the numbered one as the dialect shows it. */
  lemma PreparedShown(binding: Binding, m: Model, q: QuerySql.Query)
    requires QueryMatched(m, q) && AllFit(binding, Trees(q))
    ensures var (numbered, vars) := Prepared(Numbered, m, q);
      Prepared(binding, m, q) == (Shown(binding, numbered), vars)
  {
    hide Prepared, Shown, Trees;
    PreparedLinked(binding, m, q);
  }

  /** So in every dialect the statement with its values says what was asked, with '?'
      if the placeholders of its WHERE clause are in order. */
  lemma PreparedReads(binding: Binding, m: Model, q: QuerySql.Query)
    requires QueryMatched(m, q) && AllFit(binding, Trees(q))
    requires binding.Numbered? || InOrder(q.search)
    ensures var (sql, vars) := Prepared(binding, m, q);
      Reads(binding, sql, 0, vars) == PreparedSays(m, q)
  {
    hide Prepared, Resolve, Erase, Marks, BindsOf, Fill, Upto, PreparedSays, InPlace, AllFit, Lits, Trees;
    PreparedShown(binding, m, q);
    PreparedDenotes(m, q);
    if !binding.Numbered? {
      var (numbered, vars) := Prepared(Numbered, m, q);
      PreparedPlaceholders(m, q);
      PreparedNoMarks(m, q);
      NumbersInRange(BindsOf(numbered), 0, vars);
      OwnPlaces(BindsOf(numbered), 0, vars);
      FillErased(numbered, vars[0..], vars);
    }
  }

  /** With '?', expressions that begin with a word, and values that differ from each
      other, it does so exactly when no expression follows a value in its list and
      the placeholders of the WHERE clause are in order. */
  lemma PreparedExactly(m: Model, q: QuerySql.Query)
    requires QueryMatched(m, q) && AllWordsFirst(Trees(q))
    requires Distinct(Prepared(Question, m, q).1)
    ensures var (sql, vars) := Prepared(Question, m, q);
      Reads(Question, sql, 0, vars) == PreparedSays(m, q) <==> AllFit(Question, Trees(q)) && InOrder(q.search)
  {
    hide Prepared, Resolve, Erase, Marks, BindsOf, Fill, Upto, PreparedSays, InPlace, AllFit, Lits, Distinct, Template,
         AllWordsFirst, Trees;
    var (sql, vars) := Prepared(Question, m, q);
    var numbered := Prepared(Numbered, m, q).0;
    assert vars[0..] == vars;
    PreparedLinked(Question, m, q);
    PreparedMarks(m, q);
    PreparedDenotes(m, q);
    PreparedPlaceholders(m, q);
    PreparedNoMarks(m, q);
    NumbersInRange(BindsOf(numbered), 0, vars);
    OwnPlaces(BindsOf(numbered), 0, vars);
    FillErased(numbered, vars, vars);
    if Reads(Question, sql, 0, vars) == PreparedSays(m, q) {
      ReadsAsNumbered(sql, numbered, vars, vars);
    }
  }

  /** Dialects that number with "$$$" have every number replaced by '?' in the end
      (scope.go:369-372). The values then meet their places if the placeholders are
      in order and, where they differ from each other, only then. */
  lemma PreparedRenumbered(m: Model, q: QuerySql.Query)
    requires QueryMatched(m, q)
    ensures var (sql, vars) := Prepared(Numbered, m, q);
      && (InOrder(q.search) ==> Fill(Erase(sql), Lits(vars)) == PreparedSays(m, q))
      && (Distinct(vars) && Fill(Erase(sql), Lits(vars)) == PreparedSays(m, q) ==> InOrder(q.search))
  {
    hide Prepared, Resolve, Erase, Marks, BindsOf, Fill, Upto, PreparedSays, InPlace, Lits, Distinct;
    var (sql, vars) := Prepared(Numbered, m, q);
    assert vars[0..] == vars;
    PreparedDenotes(m, q);
    PreparedPlaceholders(m, q);
    PreparedNoMarks(m, q);
    NumbersInRange(BindsOf(sql), 0, vars);
    OwnPlaces(BindsOf(sql), 0, vars);
    FillErased(sql, vars, vars);
  }

  /** db.Raw(body, args...) and nothing else. */
  predicate RawOnly(q: QuerySql.Query, body: seq<Tok>, args: seq<CondArg>) {
    && q.raw && q.joins == [] && q.group == [] && q.having == [] && q.orders == []
    && !SoftDelete(q.search) && q.search.keys == [] && q.search.ors == [] && q.search.nots == []
    && |q.search.wheres| == 1 && q.search.wheres[0].Text?
    && q.search.wheres[0].body == body != [] && q.search.wheres[0].args == args
  }

  /** A raw query is its own text with its arguments in place: the parentheses that
      were put around it come off again. */
  lemma RawStatement(binding: Binding, m: Model, q: QuerySql.Query, body: seq<Tok>, args: seq<CondArg>)
    requires RawOnly(q, body, args)
    ensures var (texts, vars) := ArgTexts(binding, args, []);
      Prepared(binding, m, q) == (Fill(body, texts) + [Word(q.tail)], vars)
  {
    hide ArgTexts, Fill;
    var (texts, vars) := ArgTexts(binding, args, []);
    var text := Fill(body, texts);
    FillGroup(body, texts);
    assert q.search.wheres[1..] == [] && [Group(text)][1..] == [];
    assert Condition(binding, m, q.search.wheres[0], true, []) == (Group(text), vars);
    assert Conditions(binding, m, [], true, vars) == ([], vars);
    var none: seq<seq<Tok>> := [];
    assert [Group(text)] + none == [Group(text)] && Group(text) != [];
    assert Conditions(binding, m, q.search.wheres, true, []) == ([Group(text)], vars);
    assert Where(binding, m, q.search, []) == (Group(text), vars) by {
      assert [Group(text)] + [] == [Group(text)];
      assert Assemble([], [Group(text)], []) == Group(text);
    }
    assert Group(text)[1..] == text + [Close];
    assert Unwrapped(Group(text)) == text;
    FillEmpty([]);
    var tail := [Word(q.tail)];
    RawConcat(text, tail);
  }

  lemma EmptyPart<T>(parts: seq<seq<T>>)
    ensures Concat([[]] + parts) == Concat(parts)
  {
    assert ([[]] + parts)[1..] == parts && [] + Concat(parts) == Concat(parts);
  }

  lemma RawConcat(text: seq<Tok>, tail: seq<Tok>)
    ensures Concat([[], [], text, [], [], [], tail]) == text + tail
  {
    EmptyPart([[], text, [], [], [], tail]);
    EmptyPart([text, [], [], [], tail]);
    EmptyPart([[], [], tail]);
    EmptyPart([[], tail]);
    EmptyPart([tail]);
    ConcatOne(tail);
    assert [text, [], [], [], tail][1..] == [[]] + [[], [], tail];
    hide Concat;
    ConcatCons(text, [[], [], [], tail]);
    assert [[]] + [[], text, [], [], [], tail] == [[], [], text, [], [], [], tail];
    assert [[]] + [text, [], [], [], tail] == [[], text, [], [], [], tail];
    assert [text] + [[], [], [], tail] == [text, [], [], [], tail];
    assert [[]] + [[], [], tail] == [[], [], [], tail];
    assert [[]] + [[], tail] == [[], [], tail] && [[]] + [tail] == [[], tail];
  }

  lemma ConcatCons<T>(part: seq<T>, parts: seq<seq<T>>)
    ensures Concat([part] + parts) == part + Concat(parts)
  {
    assert ([part] + parts)[1..] == parts;
  }

  // ---------- sub-queries ----------

  function Plains(vals: seq<Val>): (r: seq<Arg>)
    ensures |r| == |vals|
  {
    seq(|vals|, i requires 0 <= i < |vals| => Plain(vals[i]))
  }

  /** `SubQuery`: the statement built with bind variables skipped, as an expression
      over its values. */
  function SubQuery(m: Model, q: QuerySql.Query): Arg {
    var (sql, vars) := Prepared(Skipped, m, q);
    Expr(Group(sql), Plains(vars))
  }

  lemma {:induction false} PlainsSay(vals: seq<Val>)
    ensures InlineAll(Plains(vals)) == Lits(vals)
  {
    if vals != [] {
      PlainsSay(vals[1..]);
      assert Plains(vals)[1..] == Plains(vals[1..]) && Lits(vals)[1..] == Lits(vals[1..]);
      assert Plains(vals)[0] == Plain(vals[0]);
    }
  }

  lemma PlainsFit(template: seq<Tok>, vals: seq<Val>)
    ensures var value := Expr(template, Plains(vals)); Ordered(value) && Flat(value)
  {
    assert forall i :: 0 <= i < |vals| ==> Plains(vals)[i].Plain? && Ordered(Plains(vals)[i]);
  }

  /** Given plain values in its expressions and placeholders in order, a sub-query is
      a well-matched expression that says what its query says; and it fits every
      dialect, so it can be an argument of another query. */
  lemma SubQuerySays(m: Model, q: QuerySql.Query)
    requires QueryMatched(m, q) && AllFit(Skipped, Trees(q)) && InOrder(q.search)
    ensures var sub := SubQuery(m, q);
      && WellMatched(sub) && Inline(sub) == Group(PreparedSays(m, q))
      && Fits(Numbered, sub) && Fits(Question, sub) && Fits(Skipped, sub)
  {
    PlainsFit(Group(Prepared(Skipped, m, q).0), Prepared(Skipped, m, q).1);
    hide Prepared, Marks, BindsOf, Fill, PreparedSays, AllFit, Trees, Lits;
    var (sql, vars) := Prepared(Skipped, m, q);
    var numbered := Prepared(Numbered, m, q).0;
    PreparedReads(Skipped, m, q);
    assert vars[0..] == vars;
    PreparedShown(Skipped, m, q);
    PreparedLinked(Question, m, q);
    assert Template(sql);
    GroupTemplate(sql);
    PreparedPlaceholders(m, q);
    PreparedNoMarks(m, q);
    MarksErased(numbered);
    MarksGroup(sql);
    PlainsSay(vars);
    FillGroup(sql, Lits(vars));
  }

  lemma GroupTemplate(ts: seq<Tok>)
    requires Template(ts)
    ensures Template(Group(ts))
  {}
}
