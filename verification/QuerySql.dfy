/**
 The whole SELECT statement (scope.go:358-372, 708-748, 809-894): columns, joins,
 WHERE, GROUP BY, HAVING and ORDER BY, each collecting its values in turn.
 */
module QuerySql {
  import opened BindVars
  import opened Sequences
  import opened SqlReading
  import opened WhereClause
  import opened WhereMeaning

  /** An argument of the select list: one value, or a slice to be listed. */
  datatype SelectArg = Single(a: Arg) | Listed(elems: seq<Arg>)

  datatype Order = Column(name: string) | By(template: seq<Tok>, args: seq<Arg>)

  /** A query; a raw one is its own where condition, without a select list. */
  datatype Query = SelectQuery(
    raw: bool,
    columns: seq<Tok>,
    columnArgs: seq<SelectArg>,
    joins: seq<WhereClause.Query>,
    search: Search,
    group: seq<Tok>,
    having: seq<WhereClause.Query>,
    orders: seq<Order>,
    tail: string)

  /** strings.TrimSuffix(strings.TrimPrefix(sql, "("), ")") */
  function Trimmed(ts: seq<Tok>): seq<Tok> { WithoutClose(WithoutOpen(ts)) }

  function WithoutOpen(ts: seq<Tok>): seq<Tok> {
    if ts != [] && ts[0] == Open then ts[1..] else ts
  }

  function WithoutClose(ts: seq<Tok>): seq<Tok> {
    if ts != [] && ts[|ts| - 1] == Close then ts[..|ts| - 1] else ts
  }

  function TrimAll(texts: seq<seq<Tok>>): (r: seq<seq<Tok>>)
    ensures |r| == |texts|
  {
    if texts == [] then [] else [Trimmed(texts[0])] + TrimAll(texts[1..])
  }

  function SelectText(binding: Binding, c: SelectArg, vars: seq<Val>): (r: (seq<Tok>, seq<Val>))
    ensures vars <= r.1
  {
    match c
    case Single(a) => AddedIn(binding, a, vars)
    case Listed(elems) =>
      var (texts, vars') := AddedAllIn(binding, elems, vars);
      (Join(texts, Word(",")), vars')
  }

  function SelectTexts(binding: Binding, args: seq<SelectArg>, vars: seq<Val>): (r: (seq<seq<Tok>>, seq<Val>))
    ensures |r.0| == |args| && vars <= r.1
  {
    if args == [] then ([], vars)
    else
      var (text, vars') := SelectText(binding, args[0], vars);
      var (texts, vars'') := SelectTexts(binding, args[1..], vars');
      ([text] + texts, vars'')
  }

  /** The loop of `orderSQL` (scope.go:829-831), which splices even when bind
      variables are skipped. */
  function OrderSpliced(binding: Binding, exp: seq<Tok>, args: seq<Arg>, vars: seq<Val>): (r: (seq<Tok>, seq<Val>))
    ensures vars <= r.1
    decreases |args|
  {
    if args == [] then (exp, vars)
    else
      var (text, vars') := AddedIn(binding, args[0], vars);
      OrderSpliced(binding, ReplaceFirst(exp, text), args[1..], vars')
  }

  lemma {:induction false} OrderIsSpliced(binding: Binding, exp: seq<Tok>, args: seq<Arg>, vars: seq<Val>)
    requires !binding.Skipped?
    ensures OrderSpliced(binding, exp, args, vars) == SplicedIn(binding, exp, args, vars)
    decreases |args|
  {
    if args != [] {
      var (text, vars') := AddedIn(binding, args[0], vars);
      OrderIsSpliced(binding, ReplaceFirst(exp, text), args[1..], vars');
    }
  }

  function OrderText(binding: Binding, order: Order, vars: seq<Val>): (r: (seq<Tok>, seq<Val>))
    ensures vars <= r.1
  {
    match order
    case Column(name) => ([Word(name)], vars)
    case By(template, args) => OrderSpliced(binding, template, args, vars)
  }

  function OrderTexts(binding: Binding, orders: seq<Order>, vars: seq<Val>): (r: (seq<seq<Tok>>, seq<Val>))
    ensures |r.0| == |orders| && vars <= r.1
  {
    if orders == [] then ([], vars)
    else
      var (text, vars') := OrderText(binding, orders[0], vars);
      var (texts, vars'') := OrderTexts(binding, orders[1..], vars');
      ([text] + texts, vars'')
  }

  /** `prepareQuerySQL` and `CombinedConditionSql` */
  function Prepared(binding: Binding, m: Model, q: Query): (seq<Tok>, seq<Val>) {
    var (cols, v1) := SelectTexts(binding, SelectList(q), []);
    var (joins, v2) := Conditions(binding, m, q.joins, true, v1);
    var (cond, v3) := Where(binding, m, q.search, v2);
    var (having, v4) := Conditions(binding, m, q.having, true, v3);
    var (orders, v5) := OrderTexts(binding, q.orders, v4);
    (Statement(m, q, Fill(SelectTemplate(q), cols), TrimAll(joins), cond, having, orders), v5)
  }

  /** The select list is not built for a raw query. */
  function SelectList(q: Query): seq<SelectArg> { if q.raw then [] else q.columnArgs }

  function SelectTemplate(q: Query): seq<Tok> { if q.raw then [] else q.columns }

  function Clause(keyword: string, ts: seq<Tok>): seq<Tok> {
    if ts == [] then [] else [Word(keyword)] + ts
  }

  /** strings.TrimSuffix(strings.TrimPrefix(whereSQL, "WHERE ("), ")") */
  function Unwrapped(cond: seq<Tok>): seq<Tok> {
    WithoutClose(if cond != [] && cond[0] == Open then cond[1..] else Clause("WHERE", cond))
  }

  function Head(m: Model, q: Query, columns: seq<Tok>): seq<Tok> {
    if q.raw then columns else [Word("SELECT")] + columns + [Word("FROM"), Word(m.table)]
  }

  function Filter(q: Query, cond: seq<Tok>): seq<Tok> {
    if q.raw then Unwrapped(cond) else Clause("WHERE", cond)
  }

  function Parts(m: Model, q: Query, columns: seq<Tok>, joins: seq<seq<Tok>>, cond: seq<Tok>,
                 having: seq<seq<Tok>>, orders: seq<seq<Tok>>): seq<seq<Tok>> {
    [Head(m, q, columns),
     Join(joins, Word(" ")),
     Filter(q, cond),
     Clause("GROUP BY", q.group),
     Clause("HAVING", Join(having, And)),
     Clause("ORDER BY", Join(orders, Word(","))),
     [Word(q.tail)]]
  }

  function Statement(m: Model, q: Query, columns: seq<Tok>, joins: seq<seq<Tok>>, cond: seq<Tok>,
                     having: seq<seq<Tok>>, orders: seq<seq<Tok>>): seq<Tok> {
    Concat(Parts(m, q, columns, joins, cond, having, orders))
  }

  function SelectSays(args: seq<SelectArg>): (r: seq<seq<Tok>>)
    ensures |r| == |args|
  {
    if args == [] then []
    else
      [match args[0]
       case Single(a) => Inline(a)
       case Listed(elems) => Join(InlineAll(elems), Word(","))] + SelectSays(args[1..])
  }

  function OrdersSay(orders: seq<Order>): (r: seq<seq<Tok>>)
    ensures |r| == |orders|
  {
    if orders == [] then []
    else
      [match orders[0]
       case Column(name) => [Word(name)]
       case By(template, args) => Fill(template, InlineAll(args))] + OrdersSay(orders[1..])
  }

  function PreparedSays(m: Model, q: Query): seq<Tok> {
    Statement(m, q, Fill(SelectTemplate(q), SelectSays(SelectList(q))), TrimAll(AllSay(m, q.joins, true)),
              WhereSays(m, q.search), AllSay(m, q.having, true), OrdersSay(q.orders))
  }

  // ---------- the statement spelled out ----------

  /** The having conditions, joined. */
  function HavingSays(m: Model, q: Query): seq<Tok> { Join(AllSay(m, q.having, true), And) }

  function OrdersListed(q: Query): seq<Tok> { Join(OrdersSay(q.orders), Word(",")) }

  /** Clause after clause, each with its keyword and only if there is something in it. */
  lemma StatementSpelled(m: Model, q: Query)
    requires !q.raw
    ensures PreparedSays(m, q)
      == [Word("SELECT")] + Fill(q.columns, SelectSays(q.columnArgs)) + [Word("FROM"), Word(m.table)]
        + Join(TrimAll(AllSay(m, q.joins, true)), Word(" "))
        + (if WhereSays(m, q.search) == [] then [] else [Word("WHERE")] + WhereSays(m, q.search))
        + (if q.group == [] then [] else [Word("GROUP BY")] + q.group)
        + (if HavingSays(m, q) == [] then [] else [Word("HAVING")] + HavingSays(m, q))
        + (if OrdersListed(q) == [] then [] else [Word("ORDER BY")] + OrdersListed(q))
        + [Word(q.tail)]
  {
    hide Fill, SelectSays, TrimAll, AllSay, WhereSays, OrdersSay, Join;
    var parts := Parts(m, q, Fill(q.columns, SelectSays(q.columnArgs)), TrimAll(AllSay(m, q.joins, true)),
                       WhereSays(m, q.search), AllSay(m, q.having, true), OrdersSay(q.orders));
    Seven(parts);
  }

  lemma Seven(parts: seq<seq<Tok>>)
    requires |parts| == 7
    ensures Concat(parts) == parts[0] + parts[1] + parts[2] + parts[3] + parts[4] + parts[5] + parts[6]
  {
    assert parts[1..][1..] == parts[2..] && parts[2..][1..] == parts[3..] && parts[3..][1..] == parts[4..];
    assert parts[4..][1..] == parts[5..] && parts[5..][1..] == parts[6..] && parts[6..][1..] == [];
    assert Concat(parts[6..]) == parts[6] + Concat([]);
    assert Concat(parts[5..]) == parts[5] + Concat(parts[6..]);
    assert Concat(parts[4..]) == parts[4] + Concat(parts[5..]);
    assert Concat(parts[3..]) == parts[3] + Concat(parts[4..]);
    assert Concat(parts[2..]) == parts[2] + Concat(parts[3..]);
    assert Concat(parts[1..]) == parts[1] + Concat(parts[2..]);
  }

  /** An element of the select list is its value, or its values with commas. */
  lemma {:induction false} SelectElement(args: seq<SelectArg>, i: nat)
    requires i < |args|
    ensures SelectSays(args)[i]
      == if args[i].Single? then Inline(args[i].a) else Join(InlineAll(args[i].elems), Word(","))
  {
    if i > 0 {
      SelectElement(args[1..], i - 1);
    }
  }

  /** An order is its column, or its expression with the arguments in it. */
  lemma {:induction false} OrderElement(orders: seq<Order>, i: nat)
    requires i < |orders|
    ensures OrdersSay(orders)[i]
      == if orders[i].Column? then [Word(orders[i].name)] else Fill(orders[i].template, InlineAll(orders[i].args))
  {
    if i > 0 {
      OrderElement(orders[1..], i - 1);
    }
  }

  /** A join's text stands there as it was given, with its arguments and without
      the parentheses a condition gets. */
  lemma {:induction false} JoinsSpelled(m: Model, joins: seq<WhereClause.Query>, i: nat)
    requires forall k :: 0 <= k < |joins| ==> joins[k].Text? && joins[k].body != [] && Matched(m, joins[k], true)
    requires i < |joins|
    ensures |TrimAll(AllSay(m, joins, true))| == |joins|
    ensures TrimAll(AllSay(m, joins, true))[i] == Fill(joins[i].body, ArgsSay(joins[i].args))
  {
    hide Fill, Says, Matched, Trimmed;
    JoinSpelled(m, joins[0]);
    var text, rest := Says(m, joins[0], true), AllSay(m, joins[1..], true);
    assert AllSay(m, joins, true) == [text] + rest;
    assert ([text] + rest)[1..] == rest;
    if i > 0 {
      JoinsSpelled(m, joins[1..], i - 1);
    } else if |joins| > 1 {
      JoinsSpelled(m, joins[1..], 0);
    } else {
      assert rest == [];
    }
  }

  lemma JoinSpelled(m: Model, q: WhereClause.Query)
    requires q.Text? && q.body != [] && Matched(m, q, true)
    ensures Says(m, q, true) != [] && Trimmed(Says(m, q, true)) == Fill(q.body, ArgsSay(q.args))
  {
    FillGroup(q.body, ArgsSay(q.args));
    var filled := Fill(q.body, ArgsSay(q.args));
    assert Says(m, q, true) == [Open] + filled + [Close];
    assert ([Open] + filled + [Close])[1..] == filled + [Close];
  }

  /** HAVING keeps a group exactly when every condition that adds something is true. */
  lemma HavingSelects(m: Model, q: Query, atom: seq<Tok> -> Truth)
    requires forall i :: 0 <= i < |q.having| ==> Matched(m, q.having[i], true) && Sound(m, q.having[i], true)
    ensures HavingSays(m, q) == [] <==> Present(q.having, true) == []
    ensures HavingSays(m, q) != [] ==>
      (ReadOr(HavingSays(m, q), atom).True? <==> AllTrue(m, Present(q.having, true), true, atom))
  {
    hide ReadOr, Conjunct, AllTrue;
    ListMeaning(m, q.having, true, atom);
    var texts := AllSay(m, q.having, true);
    JoinEmpty(texts, And);
    if texts != [] {
      ReadAllOf(texts, atom);
    }
  }

  predicate QueryMatched(m: Model, q: Query) {
    && Template(SelectTemplate(q)) && Marks(SelectTemplate(q)) == |SelectList(q)| && SelectMatched(SelectList(q))
    && Template(q.group) && Marks(q.group) == 0
    && (forall i :: 0 <= i < |q.joins| ==> Matched(m, q.joins[i], true))
    && AllMatched(m, q.search)
    && (forall i :: 0 <= i < |q.having| ==> Matched(m, q.having[i], true))
    && (forall i :: 0 <= i < |q.orders| ==> q.orders[i].By? ==> WellMatched(Expr(q.orders[i].template, q.orders[i].args)))
  }

  predicate SelectMatched(args: seq<SelectArg>) {
    forall i :: 0 <= i < |args| ==>
      match args[i]
      case Single(a) => WellMatched(a)
      case Listed(elems) => forall j :: 0 <= j < |elems| ==> WellMatched(elems[j])
  }

  lemma {:induction false} SelectFaithful(args: seq<SelectArg>, vars: seq<Val>)
    requires SelectMatched(args)
    ensures FaithfulList(SelectTexts(Numbered, args, vars).0, SelectSays(args), vars, SelectTexts(Numbered, args, vars).1)
  {
    hide Faithful, WellMatched;
    if args != [] {
      var (text, mid) := SelectText(Numbered, args[0], vars);
      match args[0] {
        case Single(a) => AddedFaithful(a, vars);
        case Listed(elems) =>
          AddedAllFaithful(elems, vars);
          JoinFaithful(AddedAll(elems, vars).0, InlineAll(elems), Word(","), vars, mid);
      }
      SelectFaithful(args[1..], mid);
      var texts, says := SelectTexts(Numbered, args, vars).0, SelectSays(args);
      assert texts[0] == text && texts[1..] == SelectTexts(Numbered, args[1..], mid).0;
      assert says[1..] == SelectSays(args[1..]);
      assert Faithful(texts[0], says[0], vars, mid);
    }
  }

  lemma MarksTrimmed(ts: seq<Tok>)
    ensures Marks(Trimmed(ts)) == Marks(ts) && BindsOf(Trimmed(ts)) == BindsOf(ts)
  {
    var t := if ts != [] && ts[0] == Open then ts[1..] else ts;
    if t != [] && t[|t| - 1] == Close {
      var r := t[..|t| - 1];
      assert t == r + [Close];
      assert [Close][1..] == [];
      MarksAppend(r, [Close]);
      BindsAppend(r, [Close]);
    }
  }

  lemma TrimmedFaithful(text: seq<Tok>, says: seq<Tok>, v0: seq<Val>, v1: seq<Val>)
    requires Faithful(text, says, v0, v1)
    ensures Faithful(Trimmed(text), Trimmed(says), v0, v1)
  {
    MarksTrimmed(text);
    forall i | 0 <= i < |text|
      ensures (text[i] == Open <==> says[i] == Open) && (text[i] == Close <==> says[i] == Close)
    {
      assert says[i] == ResolveTok(text[i], v1);
    }
    assert Resolve(Trimmed(text), v1) == Trimmed(says);
  }

  lemma {:induction false} TrimAllFaithful(texts: seq<seq<Tok>>, says: seq<seq<Tok>>, v0: seq<Val>, v1: seq<Val>)
    requires FaithfulList(texts, says, v0, v1)
    ensures FaithfulList(TrimAll(texts), TrimAll(says), v0, v1)
  {
    if texts != [] {
      var mid :| Faithful(texts[0], says[0], v0, mid) && FaithfulList(texts[1..], says[1..], mid, v1);
      TrimmedFaithful(texts[0], says[0], v0, mid);
      TrimAllFaithful(texts[1..], says[1..], mid, v1);
      assert TrimAll(texts)[1..] == TrimAll(texts[1..]) && TrimAll(says)[1..] == TrimAll(says[1..]);
      assert Faithful(TrimAll(texts)[0], TrimAll(says)[0], v0, mid);
    }
  }

  lemma {:induction false} OrdersFaithful(orders: seq<Order>, vars: seq<Val>)
    requires forall i :: 0 <= i < |orders| ==> orders[i].By? ==> WellMatched(Expr(orders[i].template, orders[i].args))
    ensures FaithfulList(OrderTexts(Numbered, orders, vars).0, OrdersSay(orders), vars, OrderTexts(Numbered, orders, vars).1)
  {
    if orders != [] {
      var o := orders[0];
      var (text, mid) := OrderText(Numbered, o, vars);
      if o.By? {
        AddedFaithful(Expr(o.template, o.args), vars);
        OrderIsSpliced(Numbered, o.template, o.args, vars);
        AddedExpr(o.template, o.args, vars);
      } else {
        FixedFaithful(text, vars);
      }
      OrdersFaithful(orders[1..], mid);
      var (texts, after) := OrderTexts(Numbered, orders, vars);
      assert texts[0] == text && texts[1..] == OrderTexts(Numbered, orders[1..], mid).0;
      assert OrdersSay(orders)[1..] == OrdersSay(orders[1..]);
      assert Faithful(texts[0], OrdersSay(orders)[0], vars, mid);
    }
  }

  lemma ClauseResolve(keyword: string, ts: seq<Tok>, vars: seq<Val>)
    ensures Resolve(Clause(keyword, ts), vars) == Clause(keyword, Resolve(ts, vars))
  {}

  lemma ClauseBinds(keyword: string, ts: seq<Tok>)
    ensures BindsOf(Clause(keyword, ts)) == BindsOf(ts)
  {
    if ts != [] {
      BindsSingle(Word(keyword));
      BindsAppend([Word(keyword)], ts);
    }
  }

  /** Resolving goes through a list of parts. */
  lemma {:induction false} ResolveConcat(parts: seq<seq<Tok>>, says: seq<seq<Tok>>, vars: seq<Val>)
    requires |parts| == |says| && forall i :: 0 <= i < |parts| ==> Resolve(parts[i], vars) == says[i]
    ensures Resolve(Concat(parts), vars) == Concat(says)
  {
    if parts != [] {
      ResolveConcat(parts[1..], says[1..], vars);
      ResolveAppend(parts[0], Concat(parts[1..]), vars);
    }
  }

  lemma {:induction false} BindsConcat(parts: seq<seq<Tok>>, numbers: seq<seq<nat>>)
    requires |parts| == |numbers| && forall i :: 0 <= i < |parts| ==> BindsOf(parts[i]) == numbers[i]
    ensures BindsOf(Concat(parts)) == Concat(numbers)
  {
    if parts != [] {
      BindsConcat(parts[1..], numbers[1..]);
      BindsAppend(parts[0], Concat(parts[1..]));
    }
  }

  lemma HeadParts(m: Model, q: Query, columns: seq<Tok>, vars: seq<Val>)
    ensures Resolve(Head(m, q, columns), vars) == Head(m, q, Resolve(columns, vars))
    ensures BindsOf(Head(m, q, columns)) == BindsOf(columns)
  {
    hide Resolve, BindsOf;
    var select, from := [Word("SELECT")], [Word("FROM"), Word(m.table)];
    ResolveAppend(select, columns, vars);
    ResolveAppend(select + columns, from, vars);
    TemplateResolve(select, vars);
    TemplateResolve(from, vars);
    TemplateResolve([], vars);
    BindsAppend(select, columns);
    BindsAppend(select + columns, from);
    TemplateBinds(select);
    TemplateBinds(from);
    TemplateBinds([]);
  }

  lemma FilterParts(q: Query, cond: seq<Tok>, vars: seq<Val>)
    ensures Resolve(Filter(q, cond), vars) == Filter(q, Resolve(cond, vars))
    ensures BindsOf(Filter(q, cond)) == BindsOf(cond)
  {
    ClauseResolve("WHERE", cond, vars);
    ClauseBinds("WHERE", cond);
    if q.raw {
      var t := if cond != [] && cond[0] == Open then cond[1..] else Clause("WHERE", cond);
      assert Resolve(Unwrapped(cond), vars) == Unwrapped(Resolve(cond, vars));
      if t != [] && t[|t| - 1] == Close {
        assert t == t[..|t| - 1] + [Close];
        BindsSingle(Close);
        BindsAppend(t[..|t| - 1], [Close]);
      }
    }
  }

  lemma StatementResolve(m: Model, q: Query, columns: seq<Tok>, joins: seq<seq<Tok>>, cond: seq<Tok>,
                         having: seq<seq<Tok>>, orders: seq<seq<Tok>>, vars: seq<Val>)
    requires Template(q.group)
    ensures Resolve(Statement(m, q, columns, joins, cond, having, orders), vars)
      == Statement(m, q, Resolve(columns, vars), ResolveAll(joins, vars), Resolve(cond, vars),
                   ResolveAll(having, vars), ResolveAll(orders, vars))
  {
    hide Resolve, ResolveAll, Join, Clause, Head, Filter, Concat;
    HeadParts(m, q, columns, vars);
    FilterParts(q, cond, vars);
    ResolveJoin(joins, Word(" "), vars);
    ResolveJoin(having, And, vars);
    ResolveJoin(orders, Word(","), vars);
    ClauseResolve("GROUP BY", q.group, vars);
    TemplateResolve(q.group, vars);
    ClauseResolve("HAVING", Join(having, And), vars);
    ClauseResolve("ORDER BY", Join(orders, Word(",")), vars);
    TemplateResolve([Word(q.tail)], vars);
    ResolveConcat(Parts(m, q, columns, joins, cond, having, orders),
                  Parts(m, q, Resolve(columns, vars), ResolveAll(joins, vars), Resolve(cond, vars),
                        ResolveAll(having, vars), ResolveAll(orders, vars)), vars);
  }

  lemma StatementBinds(m: Model, q: Query, columns: seq<Tok>, joins: seq<seq<Tok>>, cond: seq<Tok>,
                       having: seq<seq<Tok>>, orders: seq<seq<Tok>>)
    requires Template(q.group)
    ensures BindsOf(Statement(m, q, columns, joins, cond, having, orders))
      == Concat([BindsOf(columns), BindsAll(joins), BindsOf(cond), [], BindsAll(having), BindsAll(orders), []])
  {
    hide BindsOf, BindsAll, Join, Clause, Head, Filter, Concat;
    HeadParts(m, q, columns, []);
    FilterParts(q, cond, []);
    BindsJoin(joins, Word(" "));
    BindsJoin(having, And);
    BindsJoin(orders, Word(","));
    ClauseBinds("GROUP BY", q.group);
    TemplateBinds(q.group);
    ClauseBinds("HAVING", Join(having, And));
    ClauseBinds("ORDER BY", Join(orders, Word(",")));
    BindsSingle(Word(q.tail));
    BindsConcat(Parts(m, q, columns, joins, cond, having, orders),
                [BindsOf(columns), BindsAll(joins), BindsOf(cond), [], BindsAll(having), BindsAll(orders), []]);
  }

  /** For every query whose '?' match their arguments, the final statement says
      exactly what was asked: each numbered placeholder denotes its own value. */
  lemma PreparedDenotes(m: Model, q: Query)
    requires QueryMatched(m, q)
    ensures Resolve(Prepared(Numbered, m, q).0, Prepared(Numbered, m, q).1) == PreparedSays(m, q)
  {
    var (cols, v1) := SelectTexts(Numbered, SelectList(q), []);
    var (joins, v2) := Conditions(Numbered, m, q.joins, true, v1);
    var (cond, v3) := Where(Numbered, m, q.search, v2);
    var (having, v4) := Conditions(Numbered, m, q.having, true, v3);
    var (orders, v5) := OrderTexts(Numbered, q.orders, v4);
    hide Resolve, Statement, Where, Conditions, OrderTexts, SelectTexts, Fill, Matched, WhereSays;
    SelectFaithful(SelectList(q), []);
    FillFaithful(SelectTemplate(q), cols, SelectSays(SelectList(q)), [], v1);
    FaithfulLater(Fill(SelectTemplate(q), cols), Fill(SelectTemplate(q), SelectSays(SelectList(q))), [], v1, v5);
    ConditionsFaithful(m, q.joins, true, v1);
    TrimAllFaithful(joins, AllSay(m, q.joins, true), v1, v2);
    ListLater(TrimAll(joins), TrimAll(AllSay(m, q.joins, true)), v1, v2, v5);
    WhereDenotesLater(m, q.search, v2, v5);
    ConditionsFaithful(m, q.having, true, v3);
    ListLater(having, AllSay(m, q.having, true), v3, v4, v5);
    OrdersFaithful(q.orders, v4);
    ListLater(orders, OrdersSay(q.orders), v4, v5, v5);
    StatementResolve(m, q, Fill(SelectTemplate(q), cols), TrimAll(joins), cond, having, orders, v5);
  }

  /** Values collected after the WHERE clause do not change what it says. */
  lemma WhereDenotesLater(m: Model, s: Search, vars: seq<Val>, later: seq<Val>)
    requires AllMatched(m, s) && Where(Numbered, m, s, vars).1 <= later
    ensures Resolve(Where(Numbered, m, s, vars).0, later) == WhereSays(m, s)
  {
    hide Where, Resolve, WhereSays, Carries, BindsOf, Upto;
    var (text, after) := Where(Numbered, m, s, vars);
    WhereDenotes(m, s, vars);
    PlaceholderOrder(m, s, vars);
    ResolveLater(text, after, later, |vars|);
  }

  /** Text whose placeholders all number values already there. */
  lemma ResolveLater(text: seq<Tok>, vars: seq<Val>, later: seq<Val>, from: nat)
    requires from <= |vars| && vars <= later && multiset(BindsOf(text)) == multiset(Upto(from, |vars|))
    ensures Resolve(text, later) == Resolve(text, vars)
  {
    forall i | 0 <= i < |text| ensures ResolveTok(text[i], later) == ResolveTok(text[i], vars) {
      if text[i].Bind? {
        BindsMember(text, i);
        assert text[i].n in multiset(BindsOf(text));
        assert text[i].n in Upto(from, |vars|);
      }
    }
  }

  /** The statement has exactly as many placeholders as values, one for each; and
      positional placeholders meet their own values exactly when the or or the not
      conditions of its WHERE clause carry none. */
  lemma PreparedPlaceholders(m: Model, q: Query)
    requires QueryMatched(m, q)
    ensures var (sql, vars) := Prepared(Numbered, m, q);
      && |BindsOf(sql)| == |vars|
      && multiset(BindsOf(sql)) == multiset(Upto(0, |vars|))
      && (BindsOf(sql) == Upto(0, |vars|) <==> Carries(q.search.ors, true) == 0 || Carries(q.search.nots, false) == 0)
  {
    var (cols, v1) := SelectTexts(Numbered, SelectList(q), []);
    var (joins, v2) := Conditions(Numbered, m, q.joins, true, v1);
    var (cond, v3) := Where(Numbered, m, q.search, v2);
    var (having, v4) := Conditions(Numbered, m, q.having, true, v3);
    var (orders, v5) := OrderTexts(Numbered, q.orders, v4);
    hide Statement, Where, Conditions, OrderTexts, SelectTexts, Fill, Matched, BindsOf, BindsAll;
    SelectFaithful(SelectList(q), []);
    FillFaithful(SelectTemplate(q), cols, SelectSays(SelectList(q)), [], v1);
    ConditionsFaithful(m, q.joins, true, v1);
    TrimAllFaithful(joins, AllSay(m, q.joins, true), v1, v2);
    ListBinds(TrimAll(joins), TrimAll(AllSay(m, q.joins, true)), v1, v2);
    PlaceholderOrder(m, q.search, v2);
    ConditionsFaithful(m, q.having, true, v3);
    ListBinds(having, AllSay(m, q.having, true), v3, v4);
    OrdersFaithful(q.orders, v4);
    ListBinds(orders, OrdersSay(q.orders), v4, v5);
    StatementBinds(m, q, Fill(SelectTemplate(q), cols), TrimAll(joins), cond, having, orders);
    PiecesInOrder(BindsOf(cond), |v1|, |v2|, |v3|, |v4|, |v5|);
  }

  lemma PiecesInOrder(middle: seq<nat>, v1: nat, v2: nat, v3: nat, v4: nat, v5: nat)
    requires v1 <= v2 <= v3 <= v4 <= v5
    requires |middle| == v3 - v2 && multiset(middle) == multiset(Upto(v2, v3))
    ensures var all := Concat([Upto(0, v1), Upto(v1, v2), middle, [], Upto(v3, v4), Upto(v4, v5), []]);
      && |all| == v5
      && multiset(all) == multiset(Upto(0, v5))
      && (all == Upto(0, v5) <==> middle == Upto(v2, v3))
  {
    hide Concat;
    assert Upto(v3, v3) == [] && Upto(v5, v5) == [];
    Surround([Upto(0, v1), Upto(v1, v2), middle, [], Upto(v3, v4), Upto(v4, v5), []], [0, v1, v2, v3, v3, v4, v5, v5], 2);
  }

  /** Numbers that follow each other from cut to cut. */
  ghost predicate Follows(numbers: seq<nat>, cuts: seq<nat>, i: nat)
    requires i + 1 < |cuts|
  {
    cuts[i] <= cuts[i + 1] && numbers == Upto(cuts[i], cuts[i + 1])
  }

  lemma {:induction false} Chain(numbers: seq<seq<nat>>, cuts: seq<nat>)
    requires |cuts| == |numbers| + 1
    requires forall i :: 0 <= i < |numbers| ==> Follows(numbers[i], cuts, i)
    ensures cuts[0] <= cuts[|numbers|] && Concat(numbers) == Upto(cuts[0], cuts[|numbers|])
    decreases |numbers|
  {
    if numbers == [] {
      assert Upto(cuts[0], cuts[0]) == [];
    } else {
      assert Follows(numbers[0], cuts, 0);
      forall i | 0 <= i < |numbers[1..]| ensures Follows(numbers[1..][i], cuts[1..], i) {
        assert Follows(numbers[i + 1], cuts, i + 1);
      }
      Chain(numbers[1..], cuts[1..]);
      UptoAppend(cuts[0], cuts[1], cuts[|numbers|]);
    }
  }

  lemma ChainBefore(numbers: seq<seq<nat>>, cuts: seq<nat>, k: nat)
    requires |cuts| == |numbers| + 1 && k <= |numbers|
    requires forall i :: 0 <= i < k ==> Follows(numbers[i], cuts, i)
    ensures cuts[0] <= cuts[k] && Concat(numbers[..k]) == Upto(cuts[0], cuts[k])
  {
    hide Concat;
    forall i | 0 <= i < k ensures Follows(numbers[..k][i], cuts[..k + 1], i) {
      assert Follows(numbers[i], cuts, i);
    }
    Chain(numbers[..k], cuts[..k + 1]);
  }

  lemma ChainFrom(numbers: seq<seq<nat>>, cuts: seq<nat>, k: nat)
    requires |cuts| == |numbers| + 1 && k <= |numbers|
    requires forall i :: k <= i < |numbers| ==> Follows(numbers[i], cuts, i)
    ensures cuts[k] <= cuts[|numbers|] && Concat(numbers[k..]) == Upto(cuts[k], cuts[|numbers|])
  {
    hide Concat;
    var later := numbers[k..];
    forall i | 0 <= i < |later| ensures Follows(later[i], cuts[k..], i) {
      assert Follows(numbers[i + k], cuts, i + k);
    }
    Chain(later, cuts[k..]);
  }

  /** All stretches follow each other, but one of them may be permuted. */
  lemma Surround(numbers: seq<seq<nat>>, cuts: seq<nat>, k: nat)
    requires |cuts| == |numbers| + 1 && k < |numbers|
    requires forall i :: 0 <= i < |numbers| && i != k ==> Follows(numbers[i], cuts, i)
    requires cuts[k] <= cuts[k + 1] && |numbers[k]| == cuts[k + 1] - cuts[k]
    requires multiset(numbers[k]) == multiset(Upto(cuts[k], cuts[k + 1]))
    ensures var all, z, e := Concat(numbers), cuts[0], cuts[|numbers|];
      && z <= e && |all| == e - z
      && multiset(all) == multiset(Upto(z, e))
      && (all == Upto(z, e) <==> numbers[k] == Upto(cuts[k], cuts[k + 1]))
  {
    hide Concat, Follows, Upto;
    ChainBefore(numbers, cuts, k);
    ChainFrom(numbers, cuts, k + 1);
    ConcatAt(numbers, k);
    Between(cuts[0], cuts[k], cuts[k + 1], cuts[|numbers|], numbers[k]);
  }

  lemma Between(z: nat, a: nat, b: nat, e: nat, middle: seq<nat>)
    requires z <= a <= b <= e && |middle| == b - a && multiset(middle) == multiset(Upto(a, b))
    ensures var all := Upto(z, a) + (middle + Upto(b, e));
      && |all| == e - z
      && multiset(all) == multiset(Upto(z, e))
      && (all == Upto(z, e) <==> middle == Upto(a, b))
  {
    UptoAppend(z, a, b);
    UptoAppend(z, b, e);
    hide Upto;
    Middle(Upto(z, a), middle, Upto(a, b), Upto(b, e));
  }

  lemma Middle<T>(x: seq<T>, m: seq<T>, u: seq<T>, y: seq<T>)
    requires |m| == |u| && multiset(m) == multiset(u)
    ensures |x + (m + y)| == |x + u + y|
    ensures multiset(x + (m + y)) == multiset(x + u + y)
    ensures x + (m + y) == x + u + y <==> m == u
  {
    assert (x + (m + y))[|x|..|x| + |m|] == m && (x + u + y)[|x|..|x| + |m|] == u;
  }
}
