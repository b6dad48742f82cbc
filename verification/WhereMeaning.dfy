/**
 What the whole WHERE clause means. Read with SQL's precedence, the text with
 its collected values selects a row exactly when the row passes the soft-delete
 filter and the key filters, and satisfies all where and not conditions or some
 or condition. Every placeholder denotes its own value when placeholders are
 numbered; when they are positional, exactly when not both an or condition and
 a not condition carry values.
 */
module WhereMeaning {
  import opened BindVars
  import opened Options
  import opened Sequences
  import opened SqlReading
  import opened WhereClause
  import Strconv = Text

  // ---------- resolving an assembled text ----------

  function ResolveAll(texts: seq<seq<Tok>>, vars: seq<Val>): (r: seq<seq<Tok>>)
    ensures |r| == |texts|
  {
    if texts == [] then [] else [Resolve(texts[0], vars)] + ResolveAll(texts[1..], vars)
  }

  lemma {:induction false} ResolveAllAppend(a: seq<seq<Tok>>, b: seq<seq<Tok>>, vars: seq<Val>)
    ensures ResolveAll(a + b, vars) == ResolveAll(a, vars) + ResolveAll(b, vars)
  {
    if a == [] {
      assert a + b == b;
    } else {
      assert (a + b)[1..] == a[1..] + b;
      ResolveAllAppend(a[1..], b, vars);
    }
  }

  lemma {:induction false} ResolveJoin(texts: seq<seq<Tok>>, op: Tok, vars: seq<Val>)
    requires !op.Bind?
    ensures Resolve(Join(texts, op), vars) == Join(ResolveAll(texts, vars), op)
  {
    if texts == [] {
    } else if |texts| == 1 {
      assert ResolveAll(texts, vars)[0] == Resolve(texts[0], vars);
    } else {
      ResolveJoin(texts[1..], op, vars);
      var rest := Join(texts[1..], op);
      ResolveAppend(texts[0], [op], vars);
      ResolveAppend(texts[0] + [op], rest, vars);
      assert Resolve([op], vars) == [op];
      assert ResolveAll(texts, vars)[1..] == ResolveAll(texts[1..], vars);
    }
  }

  lemma ResolveGroup(a: seq<Tok>, vars: seq<Val>)
    ensures Resolve(Group(a), vars) == Group(Resolve(a, vars))
  {}

  lemma ResolveCombine(ands: seq<seq<Tok>>, ors: seq<seq<Tok>>, vars: seq<Val>)
    ensures Resolve(Combine(ands, ors), vars) == Combine(ResolveAll(ands, vars), ResolveAll(ors, vars))
  {
    hide Resolve, Join, ResolveAll;
    var a, o := Join(ands, And), Join(ors, Or);
    ResolveJoin(ands, And, vars);
    ResolveJoin(ors, Or, vars);
    assert a == [] <==> Resolve(a, vars) == [];
    assert o == [] <==> Resolve(o, vars) == [];
    ResolveAppend(a, [Or], vars);
    ResolveAppend(a + [Or], o, vars);
    ResolveSingle(Or, vars);
  }

  lemma ResolveSingle(op: Tok, vars: seq<Val>)
    requires !op.Bind?
    ensures Resolve([op], vars) == [op]
  {}

  lemma ResolveAssemble(primary: seq<seq<Tok>>, ands: seq<seq<Tok>>, ors: seq<seq<Tok>>, vars: seq<Val>)
    ensures Resolve(Assemble(primary, ands, ors), vars)
      == Assemble(ResolveAll(primary, vars), ResolveAll(ands, vars), ResolveAll(ors, vars))
  {
    hide Resolve, Join, Combine, Group;
    var c := Combine(ands, ors);
    ResolveCombine(ands, ors, vars);
    ResolveJoin(primary, And, vars);
    ResolveAllLength(primary, vars);
    assert c == [] <==> Resolve(c, vars) == [];
    ResolveGroup(c, vars);
    ResolveSingle(And, vars);
    ResolveAppend([And], Group(c), vars);
    ResolveAppend(Join(primary, And), [And] + Group(c), vars);
    ResolveAppend(Join(primary, And), [], vars);
    assert Resolve([], vars) == [];
  }

  lemma ResolveAllLength(texts: seq<seq<Tok>>, vars: seq<Val>)
    ensures texts == [] <==> ResolveAll(texts, vars) == []
  {}

  lemma {:induction false} ListLater(texts: seq<seq<Tok>>, says: seq<seq<Tok>>, v0: seq<Val>, v1: seq<Val>, later: seq<Val>)
    requires FaithfulList(texts, says, v0, v1) && v1 <= later
    ensures ResolveAll(texts, later) == says
  {
    if texts != [] {
      var mid :| Faithful(texts[0], says[0], v0, mid) && FaithfulList(texts[1..], says[1..], mid, v1);
      ListLater(texts[1..], says[1..], mid, v1, later);
      FaithfulLater(texts[0], says[0], v0, mid, later);
    }
  }

  /** What the clause should say, with every value in its place. */
  function WhereSays(m: Model, s: Search): seq<Tok> {
    Assemble(PrimarySays(m, s), AllSay(m, s.wheres, true) + AllSay(m, s.nots, false), AllSay(m, s.ors, true))
  }

  /** Numbered placeholders: each denotes its own value. */
  lemma WhereDenotes(m: Model, s: Search, vars: seq<Val>)
    requires AllMatched(m, s)
    ensures var (text, after) := Where(Numbered, m, s, vars);
      Resolve(text, after) == WhereSays(m, s)
  {
    var (primary, v1) := PrimaryTexts(Numbered, m, s, vars);
    var (wheres, v2) := Conditions(Numbered, m, s.wheres, true, v1);
    var (ors, v3) := Conditions(Numbered, m, s.ors, true, v2);
    var (nots, v4) := Conditions(Numbered, m, s.nots, false, v3);
    PrimaryFaithful(m, s, vars);
    ConditionsFaithful(m, s.wheres, true, v1);
    ConditionsFaithful(m, s.ors, true, v2);
    ConditionsFaithful(m, s.nots, false, v3);
    ListLater(primary, PrimarySays(m, s), vars, v1, v4);
    ListLater(wheres, AllSay(m, s.wheres, true), v1, v2, v4);
    ListLater(ors, AllSay(m, s.ors, true), v2, v3, v4);
    ListLater(nots, AllSay(m, s.nots, false), v3, v4, v4);
    ResolveAllAppend(wheres, nots, v4);
    ResolveAssemble(primary, wheres + nots, ors, v4);
  }

  // ---------- the order of the placeholders ----------

  function BindsAll(texts: seq<seq<Tok>>): seq<nat> {
    if texts == [] then [] else BindsOf(texts[0]) + BindsAll(texts[1..])
  }

  lemma {:induction false} BindsAllAppend(a: seq<seq<Tok>>, b: seq<seq<Tok>>)
    ensures BindsAll(a + b) == BindsAll(a) + BindsAll(b)
  {
    if a == [] {
      assert a + b == b;
    } else {
      assert (a + b)[1..] == a[1..] + b;
      BindsAllAppend(a[1..], b);
    }
  }

  lemma {:induction false} BindsJoin(texts: seq<seq<Tok>>, op: Tok)
    requires !op.Bind?
    ensures BindsOf(Join(texts, op)) == BindsAll(texts)
  {
    if texts == [] {
    } else if |texts| == 1 {
      assert BindsAll(texts[1..]) == [];
    } else {
      var first, rest := texts[0], Join(texts[1..], op);
      BindsJoin(texts[1..], op);
      assert Join(texts, op) == first + [op] + rest;
      assert BindsAll(texts) == BindsOf(first) + BindsAll(texts[1..]);
      hide BindsOf, BindsAll, Join;
      BindsAppend(first, [op]);
      BindsAppend(first + [op], rest);
      BindsSingle(op);
      assert BindsOf(first) + [] == BindsOf(first);
    }
  }

  lemma BindsSingle(op: Tok)
    requires !op.Bind?
    ensures BindsOf([op]) == []
  {
    assert [op][1..] == [];
  }

  lemma BindsGroup(a: seq<Tok>)
    ensures BindsOf(Group(a)) == BindsOf(a)
  {
    BindsSingle(Open);
    BindsSingle(Close);
    BindsAppend([Open], a);
    BindsAppend([Open] + a, [Close]);
  }

  lemma BindsCombine(ands: seq<seq<Tok>>, ors: seq<seq<Tok>>)
    ensures BindsOf(Combine(ands, ors)) == BindsAll(ands) + BindsAll(ors)
  {
    hide BindsOf, Join, BindsAll;
    var a, o := Join(ands, And), Join(ors, Or);
    BindsJoin(ands, And);
    BindsJoin(ors, Or);
    BindsSingle(Or);
    BindsEmpty();
    BindsAppend(a, [Or]);
    BindsAppend(a + [Or], o);
  }

  lemma BindsFiltered(p: seq<Tok>, c: seq<Tok>)
    ensures BindsOf(p + if c != [] then [And] + Group(c) else []) == BindsOf(p) + BindsOf(c)
  {
    hide BindsOf, Group;
    BindsEmpty();
    if c != [] {
      BindsSingle(And);
      BindsGroup(c);
      BindsAppend([And], Group(c));
      BindsAppend(p, [And] + Group(c));
    } else {
      assert p + [] == p;
      assert BindsOf(p) + [] == BindsOf(p);
    }
  }

  lemma BindsAssemble(primary: seq<seq<Tok>>, ands: seq<seq<Tok>>, ors: seq<seq<Tok>>)
    ensures BindsOf(Assemble(primary, ands, ors)) == BindsAll(primary) + BindsAll(ands) + BindsAll(ors)
  {
    hide BindsOf, Join, Group, BindsAll, Combine;
    BindsCombine(ands, ors);
    BindsJoin(primary, And);
    BindsFiltered(Join(primary, And), Combine(ands, ors));
    BindsAllEmpty();
    Reassociate(BindsAll(primary), BindsAll(ands), BindsAll(ors));
  }

  lemma Reassociate(a: seq<nat>, b: seq<nat>, c: seq<nat>)
    ensures a + b + c == a + (b + c)
    ensures a == [] ==> a + b + c == b + c
  {}

  lemma BindsEmpty()
    ensures BindsOf([]) == []
  {}

  lemma BindsAllEmpty()
    ensures BindsAll([]) == []
  {}

  lemma {:induction false} ListBinds(texts: seq<seq<Tok>>, says: seq<seq<Tok>>, v0: seq<Val>, v1: seq<Val>)
    requires FaithfulList(texts, says, v0, v1)
    ensures BindsAll(texts) == Upto(|v0|, |v1|)
  {
    if texts == [] {
      assert Upto(|v0|, |v1|) == [];
    } else {
      var mid :| Faithful(texts[0], says[0], v0, mid) && FaithfulList(texts[1..], says[1..], mid, v1);
      ListBinds(texts[1..], says[1..], mid, v1);
      UptoAppend(|v0|, |mid|, |v1|);
    }
  }

  /** How many values a list of conditions carries. */
  function Carries(qs: seq<Query>, positive: bool): nat {
    if qs == [] then 0 else CarriesOne(qs[0], positive) + Carries(qs[1..], positive)
  }

  function CarriesOne(q: Query, positive: bool): nat {
    match q
    case Key(_) => 0
    case Keys(elems) => CarriedAll(elems)
    case Number(_) => 1
    case Text(_, args, _, _) => CarriesArgs(args)
    case Columns(entries) => CarriesEntries(entries)
    case Struct(_, fields) => CarriesEntries(StructEntries(fields))
  }

  function CarriesArgs(args: seq<CondArg>): nat {
    if args == [] then 0
    else
      var first := match args[0]
        case One(a) => Carried(a)
        case Many(elems) => CarriedAll(elems)
        case Rows(rows) => CarriesRows(rows);
      first + CarriesArgs(args[1..])
  }

  function CarriesRows(rows: seq<seq<Arg>>): nat {
    if rows == [] then 0 else CarriedAll(rows[0]) + CarriesRows(rows[1..])
  }

  function CarriesEntries(entries: seq<(string, Option<Arg>)>): nat {
    if entries == [] then 0
    else (if entries[0].1.Some? then Carried(entries[0].1.value) else 0) + CarriesEntries(entries[1..])
  }

  lemma {:induction false} AddedAllCount(args: seq<Arg>, vars: seq<Val>)
    ensures |AddedAll(args, vars).1| == |vars| + CarriedAll(args)
  {
    if args != [] {
      AddedCount(args[0], vars);
      AddedAllCount(args[1..], Added(args[0], vars).1);
    }
  }

  lemma {:induction false} ArgTextsCount(args: seq<CondArg>, vars: seq<Val>)
    ensures |ArgTexts(Numbered, args, vars).1| == |vars| + CarriesArgs(args)
  {
    if args != [] {
      match args[0] {
        case One(a) => AddedCount(a, vars);
        case Many(elems) =>
          AddedAllCount(elems, vars);
          if elems == [] { AddedExpr([Word("NULL")], [], vars); }
        case Rows(rows) => RowTextsCount(rows, vars);
      }
      ArgTextsCount(args[1..], ArgText(Numbered, args[0], vars).1);
    }
  }

  lemma {:induction false} RowTextsCount(rows: seq<seq<Arg>>, vars: seq<Val>)
    ensures |RowTexts(Numbered, rows, vars).1| == |vars| + CarriesRows(rows)
  {
    if rows != [] {
      AddedAllCount(rows[0], vars);
      RowTextsCount(rows[1..], AddedAll(rows[0], vars).1);
    }
  }

  lemma {:induction false} EntryTextsCount(m: Model, entries: seq<(string, Option<Arg>)>, positive: bool, vars: seq<Val>)
    ensures |EntryTexts(Numbered, m, entries, positive, vars).1| == |vars| + CarriesEntries(entries)
  {
    if entries != [] {
      if entries[0].1.Some? { AddedCount(entries[0].1.value, vars); }
      EntryTextsCount(m, entries[1..], positive, EntryText(Numbered, m, entries[0], positive, vars).1);
    }
  }

  lemma ConditionCount(m: Model, q: Query, positive: bool, vars: seq<Val>)
    ensures |Condition(Numbered, m, q, positive, vars).1| == |vars| + CarriesOne(q, positive)
  {
    match q
    case Key(_) =>
    case Keys(elems) =>
      ArgTextsCount([Many(elems)], vars);
      assert [Many(elems)][1..] == [];
    case Number(_) =>
    case Text(_, args, _, _) => ArgTextsCount(args, vars);
    case Columns(entries) => EntryTextsCount(m, entries, positive, vars);
    case Struct(structTable, fields) =>
      EntryTextsCount(m.(table := structTable), StructEntries(fields), positive, vars);
  }

  lemma {:induction false} ConditionsCount(m: Model, qs: seq<Query>, positive: bool, vars: seq<Val>)
    ensures |Conditions(Numbered, m, qs, positive, vars).1| == |vars| + Carries(qs, positive)
  {
    if qs != [] {
      ConditionCount(m, qs[0], positive, vars);
      ConditionsCount(m, qs[1..], positive, Condition(Numbered, m, qs[0], positive, vars).1);
    }
  }

  /** The text prints exactly one placeholder for each collected value. It prints
      them in the order the values were collected, as positional placeholders need,
      exactly when the or conditions or the not conditions carry no value. */
  lemma PlaceholderOrder(m: Model, s: Search, vars: seq<Val>)
    requires AllMatched(m, s)
    ensures var (text, after) := Where(Numbered, m, s, vars);
      && |BindsOf(text)| == |after| - |vars|
      && multiset(BindsOf(text)) == multiset(Upto(|vars|, |after|))
      && (BindsOf(text) == Upto(|vars|, |after|) <==> Carries(s.ors, true) == 0 || Carries(s.nots, false) == 0)
  {
    var (primary, v1) := PrimaryTexts(Numbered, m, s, vars);
    var (wheres, v2) := Conditions(Numbered, m, s.wheres, true, v1);
    var (ors, v3) := Conditions(Numbered, m, s.ors, true, v2);
    var (nots, v4) := Conditions(Numbered, m, s.nots, false, v3);
    PrimaryFaithful(m, s, vars);
    ConditionsFaithful(m, s.wheres, true, v1);
    ConditionsFaithful(m, s.ors, true, v2);
    ConditionsFaithful(m, s.nots, false, v3);
    ListBinds(primary, PrimarySays(m, s), vars, v1);
    ListBinds(wheres, AllSay(m, s.wheres, true), v1, v2);
    ListBinds(ors, AllSay(m, s.ors, true), v2, v3);
    ListBinds(nots, AllSay(m, s.nots, false), v3, v4);
    BindsAllAppend(wheres, nots);
    BindsAssemble(primary, wheres + nots, ors);
    ConditionsCount(m, s.ors, true, v2);
    ConditionsCount(m, s.nots, false, v3);
    Rotation(|vars|, |v1|, |v2|, |v3|, |v4|);
  }

  lemma Rotation(a: nat, b: nat, c: nat, d: nat, e: nat)
    requires a <= b <= c <= d <= e
    ensures var printed := Upto(a, b) + (Upto(b, c) + Upto(d, e)) + Upto(c, d);
      && |printed| == e - a
      && multiset(printed) == multiset(Upto(a, e))
      && (printed == Upto(a, e) <==> c == d || d == e)
  {
    UptoAppend(a, b, c);
    UptoAppend(a, c, d);
    UptoAppend(a, d, e);
    var x, y, z := Upto(a, c), Upto(c, d), Upto(d, e);
    assert Upto(a, b) + (Upto(b, c) + z) == x + z;
    SwapTails(x, y, z);
    if c < d && d < e {
      assert (x + z + y)[c - a] == z[0] && (x + y + z)[c - a] == y[0];
    }
  }

  lemma SwapTails<T>(x: seq<T>, y: seq<T>, z: seq<T>)
    ensures multiset(x + z + y) == multiset(x + y + z)
    ensures y == [] || z == [] ==> x + z + y == x + y + z
  {}

  // ---------- the meaning of the clause ----------

  /** The condition on its own, spelled out and read as SQL. A not condition on a
      comparison is the negation of that comparison, on columns it excludes each of
      them; a struct tests its fields that are neither ignored, blank nor relations. */
  function ClauseTruth(m: Model, q: Query, positive: bool, atom: seq<Tok> -> Truth): Truth {
    match q
    case Key(n) =>
      ReadOr([Word(m.table + "." + m.primaryKey), Word(if positive then "=" else "<>"), Word(Strconv.FormatInt(n))], atom)
    case Keys(elems) => ReadOr(ListBody(m, m.primaryKey, positive, ArgSays(Many(elems))), atom)
    case Number(v) =>
      ReadOr([Word(m.table + "." + m.primaryKey), Word(if positive then "=" else "<>"), Lit(v)], atom)
    case Text(body, args, comparison, column) =>
      if positive then ReadOr(Fill(body, ArgsSay(args)), atom)
      else if comparison then Not3(ReadOr(Fill(body, ArgsSay(args)), atom))
      else if ArgsSay(args) == [] then Unknown
      else ReadOr(ListBody(m, column, false, ArgsSay(args)[0]), atom)
    case Columns(entries) => EntriesTruth(m, entries, positive, atom)
    case Struct(structTable, fields) => FieldsTruth(structTable, fields, positive, atom)
  }

  function ListBody(m: Model, column: string, positive: bool, list: seq<Tok>): seq<Tok> {
    [Word(m.table + "." + column), Word(if positive then "IN (" else "NOT IN (")] + list + [Word(")")]
  }

  function EntriesTruth(m: Model, entries: seq<(string, Option<Arg>)>, positive: bool, atom: seq<Tok> -> Truth): Truth {
    if entries == [] then True
    else
      var column := Word(m.table + "." + entries[0].0);
      var test := match entries[0].1
        case Some(a) => [column, Word(if positive then "=" else "<>")] + Inline(a)
        case None => [column, Word(if positive then "IS NULL" else "IS NOT NULL")];
      And3(ReadOr(test, atom), EntriesTruth(m, entries[1..], positive, atom))
  }

  function FieldsTruth(table: string, fields: seq<StructField>, positive: bool, atom: seq<Tok> -> Truth): Truth {
    if fields == [] then True
    else
      var f, rest := fields[0], FieldsTruth(table, fields[1..], positive, atom);
      if f.isIgnored || f.isBlank || f.isRelation then rest
      else And3(ReadOr([Word(table + "." + f.column), Word(if positive then "=" else "<>")] + Inline(f.value), atom), rest)
  }

  lemma {:induction false} StructTruth(m: Model, table: string, fields: seq<StructField>, positive: bool, atom: seq<Tok> -> Truth)
    ensures EntriesTruth(m.(table := table), StructEntries(fields), positive, atom) == FieldsTruth(table, fields, positive, atom)
  {
    hide ReadOr;
    if fields != [] {
      StructTruth(m, table, fields[1..], positive, atom);
      var f, rest := fields[0], StructEntries(fields[1..]);
      if f.isIgnored || f.isBlank || f.isRelation {
        assert StructEntries(fields) == rest;
      } else {
        assert StructEntries(fields) == [(f.column, Some(f.value))] + rest;
        assert StructEntries(fields)[1..] == rest;
      }
    }
  }

  /** A slice stands there as its values with commas, or as NULL if it is empty; a slice
      of slices as its non-empty rows in parentheses; and without any value it takes no
      part in filling the marks. */
  lemma ArgumentSpelled(row: seq<Arg>, rows: seq<seq<Arg>>, others: seq<seq<Arg>>)
    ensures ArgsSay([Many(row)]) == [if row == [] then [Word("NULL")] else Join(InlineAll(row), Word(","))]
    ensures RowsSay([row]) == if row == [] then [] else [[Word("(")] + Join(InlineAll(row), Word(",")) + [Word(")")]]
    ensures RowsSay(rows + others) == RowsSay(rows) + RowsSay(others)
    ensures ArgsSay([Rows(rows)])
      == if forall i :: 0 <= i < |rows| ==> rows[i] == [] then [] else [Join(RowsSay(rows), Word(","))]
  {
    assert [Many(row)][1..] == [] && [Rows(rows)][1..] == [] && [row][1..] == [];
    assert ArgsSay([]) == [] && RowsSay([]) == [];
    RowsAppend(rows, others);
  }

  lemma {:induction false} RowsAppend(rows: seq<seq<Arg>>, others: seq<seq<Arg>>)
    ensures RowsSay(rows + others) == RowsSay(rows) + RowsSay(others)
  {
    if rows == [] {
      assert rows + others == others;
    } else {
      assert (rows + others)[1..] == rows[1..] + others;
      RowsAppend(rows[1..], others);
    }
  }

  /** Whether a condition adds anything to the clause. */
  predicate Adds(q: Query, positive: bool) {
    match q
    case Key(_) => true
    case Number(_) => true
    case Keys(elems) => positive || elems != []
    case Text(body, _, _, _) => body != []
    case Columns(entries) => entries != []
    case Struct(_, fields) => exists i :: 0 <= i < |fields| && !fields[i].isIgnored && !fields[i].isBlank && !fields[i].isRelation
  }

  lemma {:induction false} NoEntries(fields: seq<StructField>)
    ensures StructEntries(fields) == []
      <==> forall i :: 0 <= i < |fields| ==> fields[i].isIgnored || fields[i].isBlank || fields[i].isRelation
  {
    if fields != [] {
      NoEntries(fields[1..]);
      assert forall i :: 1 <= i < |fields| ==> fields[i] == fields[1..][i - 1];
    }
  }

  lemma EntriesNonEmpty(m: Model, entries: seq<(string, Option<Arg>)>, positive: bool)
    ensures Join(EntriesSay(m, entries, positive), And) == [] <==> entries == []
  {
    if entries != [] {
      assert EntriesSay(m, entries, positive)[0] != [];
    }
  }

  /** A condition's text is empty exactly when it adds nothing. */
  lemma AddsText(m: Model, q: Query, positive: bool)
    requires Matched(m, q, positive)
    ensures Says(m, q, positive) != [] <==> Adds(q, positive)
  {
    match q
    case Key(_) =>
    case Number(_) =>
    case Keys(elems) =>
      FillGroup([Qualified(m, m.primaryKey), InOpen(positive), Mark, Word(")")], [ArgSays(Many(elems))]);
    case Text(body, args, comparison, column) =>
      FillGroup(body, ArgsSay(args));
      FillGroup([Qualified(m, column), InOpen(false), Mark, Word(")")], ArgsSay(args));
      FillNothing([], ArgsSay(args));
    case Columns(entries) =>
      EntriesNonEmpty(m, entries, positive);
    case Struct(structTable, fields) =>
      EntriesNonEmpty(m.(table := structTable), StructEntries(fields), positive);
      NoEntries(fields);
  }

  /** What the caller wrote has its parentheses in order, values included. */
  predicate Sound(m: Model, q: Query, positive: bool) {
    match q
    case Key(_) => true
    case Number(_) => true
    case Keys(elems) => Balanced(ArgSays(Many(elems)))
    case Text(body, args, comparison, column) =>
      if positive || comparison then Balanced(Fill(body, ArgsSay(args)))
      else |ArgsSay(args)| == 1 && Balanced(ArgsSay(args)[0])
    case Columns(entries) => EntriesSound(m, entries, positive)
    case Struct(structTable, fields) => EntriesSound(m.(table := structTable), StructEntries(fields), positive)
  }

  predicate EntriesSound(m: Model, entries: seq<(string, Option<Arg>)>, positive: bool) {
    forall i :: 0 <= i < |entries| ==> Balanced(EntrySays(m, entries[i], positive))
  }

  lemma {:induction false} FillBefore(ts: seq<Tok>, after: seq<Tok>, repls: seq<seq<Tok>>)
    requires Marks(after) == 0
    ensures Fill(ts + after, repls) == Fill(ts, repls) + after
  {
    if ts == [] {
      assert ts + after == after;
      FillNothing(after, repls);
    } else {
      var rest := ts[1..];
      assert (ts + after)[0] == ts[0] && (ts + after)[1..] == rest + after;
      if ts[0] == Mark && repls != [] {
        FillBefore(rest, after, repls[1..]);
        Regroup(repls[0], Fill(rest, repls[1..]), after);
      } else {
        FillBefore(rest, after, repls);
        Regroup([ts[0]], Fill(rest, repls), after);
      }
    }
  }

  lemma FillGroup(body: seq<Tok>, repls: seq<seq<Tok>>)
    ensures Fill(Group(body), repls) == Group(Fill(body, repls))
    ensures Fill([Not] + Group(body), repls) == [Not] + Group(Fill(body, repls))
  {
    assert Group(body) == [Open] + (body + [Close]);
    assert [Open][1..] == [] && [Close][1..] == [] && [Not][1..] == [];
    FillAfterPlain([Open], body + [Close], repls);
    FillBefore(body, [Close], repls);
    FillAfterPlain([Not], Group(body), repls);
  }

  lemma FillOne(back: seq<Tok>, list: seq<Tok>)
    requires Marks(back) == 0
    ensures Fill([Mark] + back, [list]) == list + back
  {
    assert ([Mark] + back)[1..] == back && [list][1..] == [];
    FillNothing(back, []);
  }

  lemma FillList(m: Model, column: string, positive: bool, list: seq<Tok>)
    ensures Fill(Group([Qualified(m, column), InOpen(positive), Mark, Word(")")]), [list])
      == Group(ListBody(m, column, positive, list))
  {
    var front, back := [Qualified(m, column), InOpen(positive)], [Word(")")];
    var body := [Qualified(m, column), InOpen(positive), Mark, Word(")")];
    FillGroup(body, [list]);
    assert body == front + ([Mark] + back);
    FixedFaithful(front, []);
    FixedFaithful(back, []);
    FillAfterPlain(front, [Mark] + back, [list]);
    FillOne(back, list);
    assert front + (list + back) == ListBody(m, column, positive, list);
  }

  lemma WordsBalanced(ts: seq<Tok>)
    requires forall i :: 0 <= i < |ts| ==> ts[i] != Open && ts[i] != Close
    ensures Balanced(ts)
  {
    if ts != [] {
      WordsBalanced(ts[1..]);
    }
  }

  lemma ListBodyBalanced(m: Model, column: string, positive: bool, list: seq<Tok>)
    requires Balanced(list)
    ensures Balanced(ListBody(m, column, positive, list))
  {
    var front := [Qualified(m, column), InOpen(positive)];
    WordsBalanced(front);
    WordsBalanced([Word(")")]);
    BalancedAppend(front, list);
    BalancedAppend(front + list, [Word(")")]);
  }

  /** A group keeps its meaning and cannot be taken apart from outside. */
  lemma GroupConjunct(body: seq<Tok>, atom: seq<Tok> -> Truth)
    requires Balanced(body)
    ensures Conjunct(Group(body)) && ReadOr(Group(body), atom) == ReadOr(body, atom)
  {
    BalancedGroup(body);
    GroupHides(body, Or);
    ReadGroup(body, atom);
  }

  lemma {:induction false} EntriesConjunct(m: Model, entries: seq<(string, Option<Arg>)>, positive: bool, atom: seq<Tok> -> Truth)
    requires EntriesSound(m, entries, positive)
    ensures var parts := EntriesSay(m, entries, positive);
      && (forall i :: 0 <= i < |parts| ==> Conjunct(parts[i]))
      && AllOf(parts, atom) == EntriesTruth(m, entries, positive, atom)
  {
    if entries != [] {
      GroupConjunct(EntrySays(m, entries[0], positive), atom);
      EntriesConjunct(m, entries[1..], positive, atom);
      var parts := EntriesSay(m, entries, positive);
      assert parts[1..] == EntriesSay(m, entries[1..], positive);
      forall i | 0 <= i < |parts| ensures Conjunct(parts[i]) {
        if i > 0 { assert parts[i] == parts[1..][i - 1]; }
      }
    }
  }

  /** Inside the clause, a condition means what it means on its own. */
  lemma ConditionMeaning(m: Model, q: Query, positive: bool, atom: seq<Tok> -> Truth)
    requires Matched(m, q, positive) && Sound(m, q, positive) && Says(m, q, positive) != []
    ensures Conjunct(Says(m, q, positive))
    ensures ReadOr(Says(m, q, positive), atom) == ClauseTruth(m, q, positive, atom)
  {
    hide ReadOr, ReadAnd, ReadFactor, Nest, FirstTop;
    match q
    case Key(n) =>
      var body := [Qualified(m, m.primaryKey), Eq(positive), Written(n)];
      WordsBalanced(body);
      GroupConjunct(body, atom);
    case Number(v) =>
      var body := [Qualified(m, m.primaryKey), Eq(positive), Lit(v)];
      WordsBalanced(body);
      GroupConjunct(body, atom);
    case Keys(elems) =>
      var list := ArgSays(Many(elems));
      FillList(m, m.primaryKey, positive, list);
      ListBodyBalanced(m, m.primaryKey, positive, list);
      GroupConjunct(ListBody(m, m.primaryKey, positive, list), atom);
    case Text(body, args, comparison, column) =>
      FillNothing([], ArgsSay(args));
      if positive {
        FillGroup(body, ArgsSay(args));
        GroupConjunct(Fill(body, ArgsSay(args)), atom);
      } else if comparison {
        FillGroup(body, ArgsSay(args));
        ReadNotGroup(Fill(body, ArgsSay(args)), atom);
      } else {
        assert ArgsSay(args) == [ArgsSay(args)[0]];
        FillList(m, column, false, ArgsSay(args)[0]);
        ListBodyBalanced(m, column, false, ArgsSay(args)[0]);
        GroupConjunct(ListBody(m, column, false, ArgsSay(args)[0]), atom);
      }
    case Columns(entries) =>
      EntriesConjunct(m, entries, positive, atom);
      ReadAllOf(EntriesSay(m, entries, positive), atom);
    case Struct(structTable, fields) =>
      var m', entries := m.(table := structTable), StructEntries(fields);
      EntriesConjunct(m', entries, positive, atom);
      ReadAllOf(EntriesSay(m', entries, positive), atom);
      StructTruth(m, structTable, fields, positive, atom);
  }

  /** The conditions that add something to the text. */
  function Present(qs: seq<Query>, positive: bool): seq<Query> {
    if qs == [] then []
    else (if Adds(qs[0], positive) then [qs[0]] else []) + Present(qs[1..], positive)
  }

  predicate AllTrue(m: Model, qs: seq<Query>, positive: bool, atom: seq<Tok> -> Truth) {
    forall i :: 0 <= i < |qs| ==> ClauseTruth(m, qs[i], positive, atom).True?
  }

  predicate SomeTrue(m: Model, qs: seq<Query>, positive: bool, atom: seq<Tok> -> Truth) {
    exists i :: 0 <= i < |qs| && ClauseTruth(m, qs[i], positive, atom).True?
  }

  lemma {:induction false} ListMeaning(m: Model, qs: seq<Query>, positive: bool, atom: seq<Tok> -> Truth)
    requires forall i :: 0 <= i < |qs| ==> Matched(m, qs[i], positive) && Sound(m, qs[i], positive)
    ensures var texts := AllSay(m, qs, positive);
      && (forall i :: 0 <= i < |texts| ==> Conjunct(texts[i]) && texts[i] != [])
      && |texts| == |Present(qs, positive)|
      && (AllOf(texts, atom).True? <==> AllTrue(m, Present(qs, positive), positive, atom))
      && (SomeOf(texts, atom).True? <==> SomeTrue(m, Present(qs, positive), positive, atom))
  {
    if qs != [] {
      var q := qs[0];
      ListMeaning(m, qs[1..], positive, atom);
      AddsText(m, q, positive);
      var rest := Present(qs[1..], positive);
      if Says(m, q, positive) == [] {
        assert Present(qs, positive) == rest;
      } else {
        ConditionMeaning(m, q, positive, atom);
        hide ReadOr, Says, ClauseTruth, Conjunct, Matched, Sound;
        var texts, tail := AllSay(m, qs, positive), AllSay(m, qs[1..], positive);
        assert texts[0] == Says(m, q, positive) && texts[1..] == tail;
        forall i | 0 <= i < |texts| ensures Conjunct(texts[i]) && texts[i] != [] {
          if i > 0 { assert texts[i] == tail[i - 1]; }
        }
        var all := Present(qs, positive);
        assert all == [q] + rest;
        assert AllTrue(m, all, positive, atom) <==> ClauseTruth(m, q, positive, atom).True? && AllTrue(m, rest, positive, atom) by {
          AllTrueCons(m, q, rest, positive, atom);
        }
        SomeTrueCons(m, q, rest, positive, atom);
      }
    }
  }

  lemma AllTrueCons(m: Model, q: Query, rest: seq<Query>, positive: bool, atom: seq<Tok> -> Truth)
    ensures AllTrue(m, [q] + rest, positive, atom) <==> ClauseTruth(m, q, positive, atom).True? && AllTrue(m, rest, positive, atom)
  {
    hide ClauseTruth;
    var all := [q] + rest;
    assert all[0] == q;
    assert forall i :: 0 <= i < |rest| ==> rest[i] == all[i + 1];
  }

  lemma SomeTrueCons(m: Model, q: Query, rest: seq<Query>, positive: bool, atom: seq<Tok> -> Truth)
    ensures SomeTrue(m, [q] + rest, positive, atom) <==> ClauseTruth(m, q, positive, atom).True? || SomeTrue(m, rest, positive, atom)
  {
    hide ClauseTruth;
    var all := [q] + rest;
    assert all[0] == q;
    assert forall i :: 0 <= i < |rest| ==> rest[i] == all[i + 1];
  }

  /** The key filters, one comparison each. */
  predicate KeysMatch(m: Model, keys: seq<(string, Val)>, atom: seq<Tok> -> Truth) {
    forall i :: 0 <= i < |keys| ==> atom([Word(m.table + "." + keys[i].0), Word("="), Lit(keys[i].1)]).True?
  }

  lemma AtomReading(ts: seq<Tok>, atom: seq<Tok> -> Truth)
    requires ts != [] && forall i :: 0 <= i < |ts| ==> ts[i].Word? || ts[i].Lit?
    ensures Conjunct(ts) && ReadOr(ts, atom) == atom(ts)
  {
    WordsBalanced(ts);
    NoOperator(ts, Or);
    NoOperator(ts, And);
    assert !IsGroup(ts) && ts[0] != Not;
    assert ReadOr(ts, atom) == ReadAnd(ts, atom);
    assert ReadAnd(ts, atom) == ReadFactor(ts, atom);
  }

  lemma {:induction false} NoOperator(ts: seq<Tok>, op: Tok)
    requires forall i :: 0 <= i < |ts| ==> ts[i].Word? || ts[i].Lit?
    requires op.Or? || op.And?
    ensures FirstTop(ts, op, 0) == -1
  {
    if ts != [] {
      NoOperator(ts[1..], op);
    }
  }

  lemma {:induction false} KeysMeaning(m: Model, keys: seq<(string, Val)>, atom: seq<Tok> -> Truth)
    ensures var texts := KeysSay(m, keys);
      && (forall i :: 0 <= i < |texts| ==> Conjunct(texts[i]))
      && (AllOf(texts, atom).True? <==> KeysMatch(m, keys, atom))
  {
    if keys != [] {
      var k := [Qualified(m, keys[0].0), Word("="), Lit(keys[0].1)];
      AtomReading(k, atom);
      KeysMeaning(m, keys[1..], atom);
      hide ReadOr, Conjunct;
      var texts := KeysSay(m, keys);
      assert texts[0] == k && texts[1..] == KeysSay(m, keys[1..]);
      forall i | 0 <= i < |texts| ensures Conjunct(texts[i]) {
        if i > 0 { assert texts[i] == texts[1..][i - 1]; }
      }
      assert forall i :: 0 <= i < |keys[1..]| ==> keys[1..][i] == keys[i + 1];
      assert KeysMatch(m, keys, atom) <==> atom(k).True? && KeysMatch(m, keys[1..], atom) by {
        if atom(k).True? && KeysMatch(m, keys[1..], atom) {
          forall i | 0 <= i < |keys| ensures atom([Qualified(m, keys[i].0), Word("="), Lit(keys[i].1)]).True? {
            if i > 0 { assert keys[i] == keys[1..][i - 1]; }
          }
        }
      }
    }
  }

  /** What the whole clause means: no clause selects every row. */
  predicate Selects(text: seq<Tok>, atom: seq<Tok> -> Truth) {
    text == [] || ReadOr(text, atom).True?
  }

  lemma JoinEmpty(parts: seq<seq<Tok>>, op: Tok)
    requires forall i :: 0 <= i < |parts| ==> parts[i] != []
    ensures Join(parts, op) == [] <==> parts == []
  {}

  /** The conditions put together, before the filters. */
  lemma CombineMeaning(ands: seq<seq<Tok>>, ors: seq<seq<Tok>>, atom: seq<Tok> -> Truth)
    requires forall i :: 0 <= i < |ands| ==> Conjunct(ands[i]) && ands[i] != []
    requires forall i :: 0 <= i < |ors| ==> Conjunct(ors[i]) && ors[i] != []
    ensures var c := Combine(ands, ors);
      && Balanced(c)
      && (c == [] <==> ands == [] && ors == [])
      && (c != [] ==> (ReadOr(c, atom).True? <==>
            (ands != [] && AllOf(ands, atom).True?) || SomeOf(ors, atom).True?))
  {
    hide ReadOr, ReadAnd, ReadFactor, Nest, FirstTop;
    JoinEmpty(ands, And);
    JoinEmpty(ors, Or);
    assert Balanced([]) by { WordsBalanced([]); }
    if ands != [] { ReadAllOf(ands, atom); }
    if ors != [] { ReadSomeOf(ors, atom); }
    assert SomeOf([], atom) == False;
    if ands != [] && ors != [] {
      var a, o := Join(ands, And), Join(ors, Or);
      ReadOrJoin(a, o, atom);
      BalancedSingle(Or);
      BalancedAppend(a, [Or]);
      BalancedAppend(a + [Or], o);
    }
  }

  /** A parenthesised clause behind a filter. */
  lemma FilteredMeaning(p: seq<Tok>, c: seq<Tok>, atom: seq<Tok> -> Truth)
    requires Conjunct(p) && Balanced(c)
    ensures ReadOr(p + ([And] + Group(c)), atom).True? <==> ReadOr(p, atom).True? && ReadOr(c, atom).True?
  {
    hide ReadOr, ReadAnd, ReadFactor, Nest, FirstTop;
    GroupConjunct(c, atom);
    ReadAndJoin(p, Group(c), atom);
    ConjunctAnd(p, Group(c));
    ReadNoOr(p, atom);
    ReadNoOr(Group(c), atom);
    hide Group;
    assert p + [And] + Group(c) == p + ([And] + Group(c));
    ReadNoOr(p + [And] + Group(c), atom);
  }

  lemma AssembleMeaning(primary: seq<seq<Tok>>, ands: seq<seq<Tok>>, ors: seq<seq<Tok>>, atom: seq<Tok> -> Truth)
    requires forall i :: 0 <= i < |primary| ==> Conjunct(primary[i]) && primary[i] != []
    requires forall i :: 0 <= i < |ands| ==> Conjunct(ands[i]) && ands[i] != []
    requires forall i :: 0 <= i < |ors| ==> Conjunct(ors[i]) && ors[i] != []
    ensures Selects(Assemble(primary, ands, ors), atom) <==>
      && AllOf(primary, atom).True?
      && ((ands == [] && ors == []) || (ands != [] && AllOf(ands, atom).True?) || SomeOf(ors, atom).True?)
  {
    assert AllOf([], atom) == True && SomeOf([], atom) == False;
    hide ReadOr, Conjunct, AllOf, SomeOf, Combine;
    CombineMeaning(ands, ors, atom);
    var c, p := Combine(ands, ors), Join(primary, And);
    JoinEmpty(primary, And);
    hide Join;
    if primary != [] {
      ReadAllOf(primary, atom);
      if c != [] {
        FilteredMeaning(p, c, atom);
      } else {
        assert p + [] == p;
      }
    }
  }

  /** What the clause should select: the rows that are not soft-deleted, match the
      keys, and satisfy all where and not conditions or some or condition. */
  predicate Selected(m: Model, s: Search, atom: seq<Tok> -> Truth) {
    var wheres, nots, ors := Present(s.wheres, true), Present(s.nots, false), Present(s.ors, true);
    && (!s.unscoped && s.deletedAt.Some? ==> atom([Word(m.table + "." + s.deletedAt.value + " IS NULL")]).True?)
    && KeysMatch(m, s.keys, atom)
    && ((wheres + nots == [] && ors == [])
        || (wheres + nots != [] && AllTrue(m, wheres, true, atom) && AllTrue(m, nots, false, atom))
        || SomeTrue(m, ors, true, atom))
  }

  /** Every condition's own parentheses are balanced. */
  predicate AllSound(m: Model, s: Search) {
    && (forall i :: 0 <= i < |s.wheres| ==> Sound(m, s.wheres[i], true))
    && (forall i :: 0 <= i < |s.ors| ==> Sound(m, s.ors[i], true))
    && (forall i :: 0 <= i < |s.nots| ==> Sound(m, s.nots[i], false))
  }

  /** The clause with its values, read as SQL, selects exactly these. */
  lemma SaysSelects(m: Model, s: Search, atom: seq<Tok> -> Truth)
    requires AllMatched(m, s) && AllSound(m, s)
    ensures Selects(WhereSays(m, s), atom) <==> Selected(m, s, atom)
  {
    hide ReadOr, ReadAnd, ReadFactor, Nest, FirstTop, Assemble, Conjunct, AllTrue, SomeTrue, KeysMatch;
    ListMeaning(m, s.wheres, true, atom);
    ListMeaning(m, s.nots, false, atom);
    ListMeaning(m, s.ors, true, atom);
    var a, n := AllSay(m, s.wheres, true), AllSay(m, s.nots, false);
    AllOfAppend(a, n, atom);
    PrimaryMeaning(m, s, atom);
    AssembleMeaning(PrimarySays(m, s), a + n, AllSay(m, s.ors, true), atom);
  }

  lemma PrimaryMeaning(m: Model, s: Search, atom: seq<Tok> -> Truth)
    ensures var texts := PrimarySays(m, s);
      && (forall i :: 0 <= i < |texts| ==> Conjunct(texts[i]) && texts[i] != [])
      && (AllOf(texts, atom).True? <==>
            (!s.unscoped && s.deletedAt.Some? ==> atom([Word(m.table + "." + s.deletedAt.value + " IS NULL")]).True?)
            && KeysMatch(m, s.keys, atom))
  {
    var keys := KeysSay(m, s.keys);
    KeysMeaning(m, s.keys, atom);
    KeysNonEmpty(m, s.keys);
    if SoftDelete(s) {
      var d := DeletedText(m, s.deletedAt.value);
      AtomReading(d, atom);
      hide ReadOr, Conjunct, KeysMatch;
      assert PrimarySays(m, s)[1..] == keys;
    } else {
      assert [] + keys == keys;
    }
  }

  lemma {:induction false} KeysNonEmpty(m: Model, keys: seq<(string, Val)>)
    ensures forall i :: 0 <= i < |keys| ==> KeysSay(m, keys)[i] != []
  {
    if keys != [] {
      KeysNonEmpty(m, keys[1..]);
      forall i | 0 <= i < |keys| ensures KeysSay(m, keys)[i] != [] {
        if i > 0 { assert KeysSay(m, keys)[i] == KeysSay(m, keys[1..])[i - 1]; }
      }
    }
  }
}
