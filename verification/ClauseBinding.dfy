/**
 The WHERE clause in every dialect: numbered placeholders, '?', and text built
 with bind variables skipped. The values are collected in the same order; the
 text is the numbered one without its numbers exactly when all trees fit.
 */
module ClauseBinding {
  import opened BindVars
  import opened BindingLinks
  import opened Options
  import opened QuestionMarks
  import opened Sequences
  import opened SqlReading
  import opened WhereClause
  import opened WhereMeaning

  // ---------- the trees of a clause ----------

  function ArgTrees(c: CondArg): seq<Arg> {
    match c
    case One(a) => [a]
    case Many(elems) => elems
    case Rows(rows) => Concat(rows)
  }

  function ArgsTrees(args: seq<CondArg>): seq<Arg> {
    if args == [] then [] else ArgTrees(args[0]) + ArgsTrees(args[1..])
  }

  function EntriesTrees(entries: seq<(string, Option<Arg>)>): seq<Arg> {
    if entries == [] then []
    else (if entries[0].1.Some? then [entries[0].1.value] else []) + EntriesTrees(entries[1..])
  }

  /** The values and expressions given to a condition. */
  function QueryTrees(q: Query): seq<Arg> {
    match q
    case Key(_) => []
    case Keys(elems) => elems
    case Number(v) => [Plain(v)]
    case Text(_, args, _, _) => ArgsTrees(args)
    case Columns(entries) => EntriesTrees(entries)
    case Struct(_, fields) => EntriesTrees(StructEntries(fields))
  }

  function ConditionTrees(qs: seq<Query>): seq<Arg> {
    if qs == [] then [] else QueryTrees(qs[0]) + ConditionTrees(qs[1..])
  }

  function SearchTrees(s: Search): seq<Arg> {
    ConditionTrees(s.wheres) + ConditionTrees(s.nots) + ConditionTrees(s.ors)
  }

  // ---------- arguments ----------

  /** Either the two texts are as long as each other, or nothing is claimed of them. */
  lemma SameLength(binding: Binding, text: seq<Tok>, numbered: seq<Tok>, trees: seq<Arg>)
    requires Linked(binding, text, numbered, trees)
    ensures |text| == |numbered| || (!binding.Question? && !AllFit(binding, trees))
  {}

  lemma Vacuous(binding: Binding, trees: seq<Arg>, text: seq<Tok>, numbered: seq<Tok>,
                texts: seq<seq<Tok>>, allNumbered: seq<seq<Tok>>)
    requires !binding.Question? && !AllFit(binding, trees)
    ensures Linked(binding, text, numbered, trees) && ListLinked(binding, texts, allNumbered, trees)
  {}

  lemma {:induction false} RowsLinked(binding: Binding, rows: seq<seq<Arg>>, vars: seq<Val>)
    requires forall i, j :: 0 <= i < |rows| && 0 <= j < |rows[i]| ==> WellMatched(rows[i][j])
    ensures ListLinked(binding, RowTexts(binding, rows, vars).0, RowTexts(Numbered, rows, vars).0, Concat(rows))
    ensures RowTexts(binding, rows, vars).1 == RowTexts(Numbered, rows, vars).1
    ensures |RowTexts(binding, rows, vars).0| == |RowTexts(Numbered, rows, vars).0|
  {
    hide ListLinked, Linked, WellMatched, AddedAllIn;
    if rows == [] {
      ListLinkedNone(binding);
    } else {
      var (marks, mid) := AddedAllIn(binding, rows[0], vars);
      var numbered := AddedAllIn(Numbered, rows[0], vars).0;
      AddedAllLinked(binding, rows[0], vars);
      RowsLinked(binding, rows[1..], mid);
      if rows[0] == [] {
        assert [] + Concat(rows[1..]) == Concat(rows[1..]);
      } else {
        JoinLinked(binding, marks, numbered, rows[0], Word(","));
        LinkedAround(binding, [Word("(")], Join(marks, Word(",")), Join(numbered, Word(",")), rows[0], [Word(")")]);
        ListLinkedCons(binding, Tuple(Join(marks, Word(","))), Tuple(Join(numbered, Word(","))), rows[0],
                       RowTexts(binding, rows[1..], mid).0, RowTexts(Numbered, rows[1..], mid).0, Concat(rows[1..]));
      }
    }
  }

  lemma ArgLinked(binding: Binding, c: CondArg, vars: seq<Val>)
    requires ArgMatched(c)
    ensures Linked(binding, ArgText(binding, c, vars).0, ArgText(Numbered, c, vars).0, ArgTrees(c))
    ensures ArgText(binding, c, vars).1 == ArgText(Numbered, c, vars).1
  {
    hide ListLinked, Linked, WellMatched;
    match c
    case One(a) => TreeLinked(binding, a, vars);
    case Many(elems) =>
      if elems == [] {
        LinkedFixed(binding, [Word("NULL")]);
      } else {
        AddedAllLinked(binding, elems, vars);
        JoinLinked(binding, AddedAllIn(binding, elems, vars).0, AddedAllIn(Numbered, elems, vars).0, elems, Word(","));
      }
    case Rows(rows) =>
      RowsLinked(binding, rows, vars);
      JoinLinked(binding, RowTexts(binding, rows, vars).0, RowTexts(Numbered, rows, vars).0, Concat(rows), Word(","));
  }

  lemma {:induction false} NoTrees(rows: seq<seq<Arg>>)
    requires !Gives(Rows(rows))
    ensures Concat(rows) == []
  {
    if rows != [] {
      assert rows[0] == [];
      forall i | 0 <= i < |rows[1..]| ensures rows[1..][i] == [] {
        assert rows[1..][i] == rows[i + 1];
      }
      NoTrees(rows[1..]);
    }
  }

  lemma {:induction false} ArgsLinked(binding: Binding, args: seq<CondArg>, vars: seq<Val>)
    requires forall i :: 0 <= i < |args| ==> ArgMatched(args[i])
    ensures ListLinked(binding, ArgTexts(binding, args, vars).0, ArgTexts(Numbered, args, vars).0, ArgsTrees(args))
    ensures ArgTexts(binding, args, vars).1 == ArgTexts(Numbered, args, vars).1
    ensures |ArgTexts(binding, args, vars).0| == |ArgTexts(Numbered, args, vars).0|
  {
    hide ListLinked, Linked, ArgMatched, ArgText, Gives, ArgTrees;
    if args == [] {
      ListLinkedNone(binding);
    } else {
      var (text, mid) := ArgText(binding, args[0], vars);
      ArgLinked(binding, args[0], vars);
      ArgsLinked(binding, args[1..], mid);
      if Gives(args[0]) {
        ListLinkedCons(binding, text, ArgText(Numbered, args[0], vars).0, ArgTrees(args[0]),
                       ArgTexts(binding, args[1..], mid).0, ArgTexts(Numbered, args[1..], mid).0, ArgsTrees(args[1..]));
      } else {
        NothingGiven(args[0]);
        assert ArgsTrees(args) == ArgsTrees(args[1..]);
      }
    }
  }

  lemma NothingGiven(c: CondArg)
    requires !Gives(c)
    ensures ArgTrees(c) == []
  {
    NoTrees(c.rows);
  }

  lemma FilledLinked(binding: Binding, template: seq<Tok>, args: seq<CondArg>, vars: seq<Val>)
    requires Template(template) && Marks(template) == |ArgsSay(args)|
    requires forall i :: 0 <= i < |args| ==> ArgMatched(args[i])
    ensures Linked(binding, Filled(binding, template, args, vars).0, Filled(Numbered, template, args, vars).0, ArgsTrees(args))
    ensures Filled(binding, template, args, vars).1 == Filled(Numbered, template, args, vars).1
  {
    hide ListLinked, Linked, ArgMatched, Fill, Marks, Faithful;
    ArgsLinked(binding, args, vars);
    ArgsFaithful(args, vars);
    FillLinked(binding, template, ArgTexts(binding, args, vars).0, ArgTexts(Numbered, args, vars).0, ArgsTrees(args));
  }

  // ---------- conditions ----------

  lemma EntryLinked(binding: Binding, m: Model, entry: (string, Option<Arg>), positive: bool, vars: seq<Val>)
    requires entry.1.Some? ==> WellMatched(entry.1.value)
    ensures Linked(binding, EntryText(binding, m, entry, positive, vars).0, EntryText(Numbered, m, entry, positive, vars).0,
                   if entry.1.Some? then [entry.1.value] else [])
    ensures EntryText(binding, m, entry, positive, vars).1 == EntryText(Numbered, m, entry, positive, vars).1
  {
    hide Linked, WellMatched;
    match entry.1
    case Some(a) =>
      TreeLinked(binding, a, vars);
      TestLinked(binding, Qualified(m, entry.0), Eq(positive), AddedIn(binding, a, vars).0, AddedIn(Numbered, a, vars).0, [a]);
    case None =>
      LinkedFixed(binding, Group(NullTest(m, entry.0, positive)));
  }

  /** A test in parentheses. */
  lemma TestLinked(binding: Binding, column: Tok, op: Tok, text: seq<Tok>, numbered: seq<Tok>, trees: seq<Arg>)
    requires column.Word? && op.Word? && Linked(binding, text, numbered, trees)
    ensures Linked(binding, Group([column, op] + text), Group([column, op] + numbered), trees)
  {
    hide Linked;
    LinkedAround(binding, [Open, column, op], text, numbered, trees, [Close]);
    assert Group([column, op] + text) == [Open, column, op] + text + [Close];
    assert Group([column, op] + numbered) == [Open, column, op] + numbered + [Close];
  }

  lemma {:induction false} EntriesLinked(binding: Binding, m: Model, entries: seq<(string, Option<Arg>)>, positive: bool, vars: seq<Val>)
    requires EntriesMatched(entries)
    ensures ListLinked(binding, EntryTexts(binding, m, entries, positive, vars).0,
                       EntryTexts(Numbered, m, entries, positive, vars).0, EntriesTrees(entries))
    ensures EntryTexts(binding, m, entries, positive, vars).1 == EntryTexts(Numbered, m, entries, positive, vars).1
  {
    hide ListLinked, Linked, WellMatched, EntryText;
    if entries == [] {
      ListLinkedNone(binding);
    } else {
      var (text, mid) := EntryText(binding, m, entries[0], positive, vars);
      EntryLinked(binding, m, entries[0], positive, vars);
      EntriesLinked(binding, m, entries[1..], positive, mid);
      ListLinkedCons(binding, text, EntryText(Numbered, m, entries[0], positive, vars).0,
                     if entries[0].1.Some? then [entries[0].1.value] else [],
                     EntryTexts(binding, m, entries[1..], positive, mid).0,
                     EntryTexts(Numbered, m, entries[1..], positive, mid).0, EntriesTrees(entries[1..]));
    }
  }

  lemma TestsLinked(binding: Binding, m: Model, entries: seq<(string, Option<Arg>)>, positive: bool, vars: seq<Val>)
    requires EntriesMatched(entries)
    ensures Linked(binding, Join(EntryTexts(binding, m, entries, positive, vars).0, And),
                   Join(EntryTexts(Numbered, m, entries, positive, vars).0, And), EntriesTrees(entries))
    ensures EntryTexts(binding, m, entries, positive, vars).1 == EntryTexts(Numbered, m, entries, positive, vars).1
  {
    hide ListLinked, Linked, EntriesMatched;
    EntriesLinked(binding, m, entries, positive, vars);
    JoinLinked(binding, EntryTexts(binding, m, entries, positive, vars).0,
               EntryTexts(Numbered, m, entries, positive, vars).0, EntriesTrees(entries), And);
  }

  lemma KeysLinked(binding: Binding, m: Model, elems: seq<Arg>, positive: bool, vars: seq<Val>)
    requires forall i :: 0 <= i < |elems| ==> WellMatched(elems[i])
    ensures var t := Skeleton(m, Keys(elems), positive);
      && Linked(binding, Filled(binding, t, [Many(elems)], vars).0, Filled(Numbered, t, [Many(elems)], vars).0, elems)
      && Filled(binding, t, [Many(elems)], vars).1 == Filled(Numbered, t, [Many(elems)], vars).1
  {
    hide Linked, WellMatched, Filled;
    ListSkeleton(Qualified(m, m.primaryKey), InOpen(positive));
    assert [Many(elems)][1..] == [];
    assert ArgsSay([Many(elems)]) == [ArgSays(Many(elems))];
    assert ArgsTrees([Many(elems)]) == elems + ArgsTrees([]) == elems;
    FilledLinked(binding, Skeleton(m, Keys(elems), positive), [Many(elems)], vars);
  }

  lemma NumberLinked(binding: Binding, m: Model, v: Val, positive: bool, vars: seq<Val>)
    ensures var c, n := Condition(binding, m, Number(v), positive, vars), Condition(Numbered, m, Number(v), positive, vars);
      Linked(binding, c.0, n.0, [Plain(v)]) && c.1 == n.1
  {
    hide Linked;
    TreeLinked(binding, Plain(v), vars);
    TestLinked(binding, Qualified(m, m.primaryKey), Eq(positive),
               AddedIn(binding, Plain(v), vars).0, AddedIn(Numbered, Plain(v), vars).0, [Plain(v)]);
  }

  lemma ConditionLinked(binding: Binding, m: Model, q: Query, positive: bool, vars: seq<Val>)
    requires Matched(m, q, positive)
    ensures Linked(binding, Condition(binding, m, q, positive, vars).0, Condition(Numbered, m, q, positive, vars).0, QueryTrees(q))
    ensures Condition(binding, m, q, positive, vars).1 == Condition(Numbered, m, q, positive, vars).1
  {
    hide Linked, Filled, EntryTexts, WellMatched, Join;
    match q
    case Key(n) =>
      LinkedFixed(binding, Group([Qualified(m, m.primaryKey), Eq(positive), Written(n)]));
    case Keys(elems) =>
      if !positive && elems == [] {
        LinkedFixed(binding, []);
      } else {
        KeysLinked(binding, m, elems, positive, vars);
      }
    case Number(v) =>
      NumberLinked(binding, m, v, positive, vars);
    case Text(body, args, comparison, column) =>
      FilledLinked(binding, Skeleton(m, q, positive), args, vars);
    case Columns(entries) =>
      TestsLinked(binding, m, entries, positive, vars);
    case Struct(structTable, fields) =>
      StructMatched(fields);
      TestsLinked(binding, m.(table := structTable), StructEntries(fields), positive, vars);
  }

  lemma {:induction false} ConditionsLinked(binding: Binding, m: Model, qs: seq<Query>, positive: bool, vars: seq<Val>)
    requires forall i :: 0 <= i < |qs| ==> Matched(m, qs[i], positive)
    ensures ListLinked(binding, Conditions(binding, m, qs, positive, vars).0,
                       Conditions(Numbered, m, qs, positive, vars).0, ConditionTrees(qs))
    ensures Conditions(binding, m, qs, positive, vars).1 == Conditions(Numbered, m, qs, positive, vars).1
  {
    hide ListLinked, Linked, Matched, Condition, QueryTrees;
    if qs == [] {
      ListLinkedNone(binding);
    } else {
      var (text, mid) := Condition(binding, m, qs[0], positive, vars);
      var numbered := Condition(Numbered, m, qs[0], positive, vars).0;
      var trees, rest := QueryTrees(qs[0]), ConditionTrees(qs[1..]);
      ConditionLinked(binding, m, qs[0], positive, vars);
      ConditionsLinked(binding, m, qs[1..], positive, mid);
      var texts, numbereds := Conditions(binding, m, qs[1..], positive, mid).0, Conditions(Numbered, m, qs[1..], positive, mid).0;
      SameLength(binding, text, numbered, trees);
      if |text| != |numbered| {
        AllFitAppend(binding, trees, rest);
        Vacuous(binding, trees + rest, text, numbered, Conditions(binding, m, qs, positive, vars).0,
                Conditions(Numbered, m, qs, positive, vars).0);
      } else if text == [] {
        ListLinkedSkip(binding, numbered, trees, texts, numbereds, rest);
      } else {
        ListLinkedCons(binding, text, numbered, trees, texts, numbereds, rest);
      }
    }
  }

  // ---------- the clause ----------

  lemma PlaceholderLinked(binding: Binding, n: nat)
    ensures Linked(binding, [Placeholder(binding, n)], [Bind(n)], [])
  {
    assert Shown(binding, [Bind(n)]) == [Placeholder(binding, n)];
  }

  lemma {:induction false} KeyTextsLinked(binding: Binding, m: Model, keys: seq<(string, Val)>, vars: seq<Val>)
    ensures ListLinked(binding, KeyTexts(binding, m, keys, vars).0, KeyTexts(Numbered, m, keys, vars).0, [])
    ensures KeyTexts(binding, m, keys, vars).1 == KeyTexts(Numbered, m, keys, vars).1
  {
    hide ListLinked, Linked;
    if keys == [] {
      ListLinkedNone(binding);
    } else {
      var before, mid := [Qualified(m, keys[0].0), Word("=")], vars + [keys[0].1];
      var text, numbered := before + [Placeholder(binding, |vars| + 1)], before + [Bind(|vars| + 1)];
      PlaceholderLinked(binding, |vars| + 1);
      LinkedAround(binding, before, [Placeholder(binding, |vars| + 1)], [Bind(|vars| + 1)], [], []);
      assert text + [] == text && numbered + [] == numbered;
      var none: seq<Arg> := [];
      assert none + none == none;
      KeyTextsLinked(binding, m, keys[1..], mid);
      ListLinkedCons(binding, text, numbered, [], KeyTexts(binding, m, keys[1..], mid).0,
                     KeyTexts(Numbered, m, keys[1..], mid).0, []);
    }
  }

  lemma PrimaryLinked(binding: Binding, m: Model, s: Search, vars: seq<Val>)
    ensures ListLinked(binding, PrimaryTexts(binding, m, s, vars).0, PrimaryTexts(Numbered, m, s, vars).0, [])
    ensures PrimaryTexts(binding, m, s, vars).1 == PrimaryTexts(Numbered, m, s, vars).1
    ensures |PrimaryTexts(binding, m, s, vars).0| == |PrimaryTexts(Numbered, m, s, vars).0|
  {
    hide ListLinked, Linked, KeyTexts;
    KeyTextsLinked(binding, m, s.keys, vars);
    var texts, numbered := KeyTexts(binding, m, s.keys, vars).0, KeyTexts(Numbered, m, s.keys, vars).0;
    if SoftDelete(s) {
      var d := DeletedText(m, s.deletedAt.value);
      LinkedFixed(binding, d);
      var none: seq<Arg> := [];
      assert none + none == none;
      ListLinkedCons(binding, d, d, [], texts, numbered, []);
    } else {
      assert [] + texts == texts && [] + numbered == numbered;
    }
  }

  lemma CombineLinked(binding: Binding, ands: seq<seq<Tok>>, nands: seq<seq<Tok>>, ta: seq<Arg>,
                      ors: seq<seq<Tok>>, nors: seq<seq<Tok>>, to: seq<Arg>)
    requires ListLinked(binding, ands, nands, ta) && ListLinked(binding, ors, nors, to)
    ensures Linked(binding, Combine(ands, ors), Combine(nands, nors), ta + to)
  {
    hide ListLinked, Linked, Join, AllFit;
    var a, na, o, no := Join(ands, And), Join(nands, And), Join(ors, Or), Join(nors, Or);
    JoinLinked(binding, ands, nands, ta, And);
    JoinLinked(binding, ors, nors, to, Or);
    SameLength(binding, a, na, ta);
    SameLength(binding, o, no, to);
    if |a| != |na| || |o| != |no| {
      AllFitAppend(binding, ta, to);
      Vacuous(binding, ta + to, Combine(ands, ors), Combine(nands, nors), [], []);
    } else {
      LinkedFixed(binding, [Or]);
      LinkedAppend(binding, a, na, ta, [Or], [Or], []);
      assert ta + [] == ta;
      LinkedAppend(binding, a + [Or], na + [Or], ta, o, no, to);
      LinkedAppend(binding, a, na, ta, o, no, to);
      assert a + [] == a && na + [] == na && [] + o == o && [] + no == no;
    }
  }

  lemma AssembleLinked(binding: Binding, primary: seq<seq<Tok>>, nprimary: seq<seq<Tok>>, ands: seq<seq<Tok>>,
                       nands: seq<seq<Tok>>, ta: seq<Arg>, ors: seq<seq<Tok>>, nors: seq<seq<Tok>>, to: seq<Arg>)
    requires ListLinked(binding, primary, nprimary, []) && |primary| == |nprimary|
    requires ListLinked(binding, ands, nands, ta) && ListLinked(binding, ors, nors, to)
    ensures Linked(binding, Assemble(primary, ands, ors), Assemble(nprimary, nands, nors), ta + to)
  {
    hide ListLinked, Linked, Join, AllFit, Combine;
    var p, np, c, nc, t := Join(primary, And), Join(nprimary, And), Combine(ands, ors), Combine(nands, nors), ta + to;
    JoinLinked(binding, primary, nprimary, [], And);
    CombineLinked(binding, ands, nands, ta, ors, nors, to);
    SameLength(binding, c, nc, t);
    if |c| != |nc| {
      Vacuous(binding, t, Assemble(primary, ands, ors), Assemble(nprimary, nands, nors), [], []);
    } else if primary != [] {
      assert [] + t == t;
      if c != [] {
        LinkedAround(binding, [And, Open], c, nc, t, [Close]);
        assert [And] + Group(c) == [And, Open] + c + [Close] && [And] + Group(nc) == [And, Open] + nc + [Close];
        LinkedAppend(binding, p, np, [], [And] + Group(c), [And] + Group(nc), t);
      } else {
        LinkedAppend(binding, p, np, [], c, nc, t);
      }
    }
  }

  lemma WhereLinked(binding: Binding, m: Model, s: Search, vars: seq<Val>)
    requires AllMatched(m, s)
    ensures Linked(binding, Where(binding, m, s, vars).0, Where(Numbered, m, s, vars).0, SearchTrees(s))
    ensures Where(binding, m, s, vars).1 == Where(Numbered, m, s, vars).1
  {
    hide ListLinked, Linked, PrimaryTexts, Conditions, ConditionTrees, Assemble, Matched;
    var (primary, v1) := PrimaryTexts(binding, m, s, vars);
    var (wheres, v2) := Conditions(binding, m, s.wheres, true, v1);
    var (ors, v3) := Conditions(binding, m, s.ors, true, v2);
    var (nots, v4) := Conditions(binding, m, s.nots, false, v3);
    PrimaryLinked(binding, m, s, vars);
    ConditionsLinked(binding, m, s.wheres, true, v1);
    ConditionsLinked(binding, m, s.ors, true, v2);
    ConditionsLinked(binding, m, s.nots, false, v3);
    var nwheres, nnots := Conditions(Numbered, m, s.wheres, true, v1).0, Conditions(Numbered, m, s.nots, false, v3).0;
    var tw, tn := ConditionTrees(s.wheres), ConditionTrees(s.nots);
    ListLinkedAppend(binding, wheres, nwheres, tw, nots, nnots, tn);
    AssembleLinked(binding, primary, PrimaryTexts(Numbered, m, s, vars).0, wheres + nots, nwheres + nnots, tw + tn,
                   ors, Conditions(Numbered, m, s.ors, true, v2).0, ConditionTrees(s.ors));
  }

  // ---------- what a database reads ----------

  /** The text with its values: a numbered placeholder stands for the value of its
      number, the i-th '?' for the i-th value collected since `from`. */
  function Reads(binding: Binding, text: seq<Tok>, from: nat, after: seq<Val>): seq<Tok>
    requires from <= |after|
  {
    if binding.Numbered? then Resolve(text, after) else Fill(text, Lits(after[from..]))
  }

  /** Placeholders are printed in the order their values are collected. */
  predicate InOrder(s: Search) {
    Carries(s.ors, true) == 0 || Carries(s.nots, false) == 0
  }

  predicate InRange(numbers: seq<nat>, vars: seq<Val>) {
    forall i :: 0 <= i < |numbers| ==> 1 <= numbers[i] <= |vars|
  }

  /** The values put in the places of the '?' are those the numbers stand for. */
  predicate InPlace(numbers: seq<nat>, vals: seq<Val>, vars: seq<Val>)
    requires |numbers| == |vals| && InRange(numbers, vars)
  {
    forall i :: 0 <= i < |vals| ==> vals[i] == vars[numbers[i] - 1]
  }

  /** With the numbers erased, values in order say what the numbers say exactly when
      each is the value of its number. */
  lemma {:induction false} FillErased(ts: seq<Tok>, vals: seq<Val>, vars: seq<Val>)
    requires Marks(ts) == 0 && |BindsOf(ts)| == |vals| && InRange(BindsOf(ts), vars)
    ensures Fill(Erase(ts), Lits(vals)) == Resolve(ts, vars) <==> InPlace(BindsOf(ts), vals, vars)
  {
    if ts != [] {
      var rest, binds := ts[1..], BindsOf(ts);
      assert Erase(ts)[0] == EraseTok(ts[0]) && Erase(ts)[1..] == Erase(rest);
      assert Resolve(ts, vars) == [ResolveTok(ts[0], vars)] + Resolve(rest, vars);
      if ts[0].Bind? {
        assert binds == [ts[0].n] + BindsOf(rest);
        RangeTail(ts[0].n, BindsOf(rest), vars);
        FillErased(rest, vals[1..], vars);
        assert Lits(vals)[1..] == Lits(vals[1..]);
        assert Fill(Erase(ts), Lits(vals)) == [Lit(vals[0])] + Fill(Erase(rest), Lits(vals[1..]));
        ConsEqual(Lit(vals[0]), Fill(Erase(rest), Lits(vals[1..])), ResolveTok(ts[0], vars), Resolve(rest, vars));
        InPlaceCons(ts[0].n, BindsOf(rest), vals, vars);
      } else {
        assert binds == BindsOf(rest);
        FillErased(rest, vals, vars);
        assert Fill(Erase(ts), Lits(vals)) == [ts[0]] + Fill(Erase(rest), Lits(vals));
        ConsEqual(ts[0], Fill(Erase(rest), Lits(vals)), ts[0], Resolve(rest, vars));
      }
    }
  }

  lemma ConsEqual(x: Tok, xs: seq<Tok>, y: Tok, ys: seq<Tok>)
    ensures [x] + xs == [y] + ys <==> x == y && xs == ys
  {
    assert ([x] + xs)[0] == x && ([x] + xs)[1..] == xs && ([y] + ys)[0] == y && ([y] + ys)[1..] == ys;
  }

  lemma RangeTail(n: nat, numbers: seq<nat>, vars: seq<Val>)
    requires InRange([n] + numbers, vars)
    ensures 1 <= n <= |vars| && InRange(numbers, vars)
  {
    assert ([n] + numbers)[0] == n;
    assert forall i :: 0 <= i < |numbers| ==> ([n] + numbers)[i + 1] == numbers[i];
  }

  lemma InPlaceCons(n: nat, numbers: seq<nat>, vals: seq<Val>, vars: seq<Val>)
    requires |vals| == 1 + |numbers| && InRange([n] + numbers, vars) && 1 <= n <= |vars| && InRange(numbers, vars)
    ensures InPlace([n] + numbers, vals, vars) <==> vals[0] == vars[n - 1] && InPlace(numbers, vals[1..], vars)
  {
    var all := [n] + numbers;
    assert all[0] == n;
    assert forall i :: 0 <= i < |numbers| ==> all[i + 1] == numbers[i] && vals[1..][i] == vals[i + 1];
    assert forall i :: 1 <= i < |all| ==> all[i] == numbers[i - 1] && vals[i] == vals[1..][i - 1];
  }

  /** Text with '?' that reads as numbered text has its '?' where that has numbers. */
  lemma {:induction false} ReadsAsNumbered(text: seq<Tok>, numbered: seq<Tok>, vals: seq<Val>, vars: seq<Val>)
    requires Template(text) && Template(Erase(numbered)) && |text| == |numbered| && Marks(numbered) == 0
    requires Marks(text) == |vals| && InRange(BindsOf(numbered), vars)
    requires Fill(text, Lits(vals)) == Resolve(numbered, vars)
    ensures text == Erase(numbered)
  {
    if text != [] {
      var rest := numbered[1..];
      assert Erase(numbered)[0] == EraseTok(numbered[0]) && Erase(numbered)[1..] == Erase(rest);
      assert Resolve(numbered, vars) == [ResolveTok(numbered[0], vars)] + Resolve(rest, vars);
      TailTemplate(text);
      TailTemplate(Erase(numbered));
      assert InRange(BindsOf(rest), vars) by {
        if numbered[0].Bind? {
          RangeTail(numbered[0].n, BindsOf(rest), vars);
        } else {
          assert BindsOf(numbered) == BindsOf(rest);
        }
      }
      assert numbered[0].Bind? ==> BindsOf(numbered)[0] == numbered[0].n;
      if text[0] == Mark {
        assert Lits(vals)[1..] == Lits(vals[1..]);
        ConsEqual(Lit(vals[0]), Fill(text[1..], Lits(vals[1..])), ResolveTok(numbered[0], vars), Resolve(rest, vars));
        assert !numbered[0].Lit? by { assert !EraseTok(numbered[0]).Lit?; }
        ReadsAsNumbered(text[1..], rest, vals[1..], vars);
      } else {
        ConsEqual(text[0], Fill(text[1..], Lits(vals)), ResolveTok(numbered[0], vars), Resolve(rest, vars));
        ReadsAsNumbered(text[1..], rest, vals, vars);
      }
    }
  }

  // ---------- no '?' in numbered text ----------

  lemma {:induction false} MarksJoin(texts: seq<seq<Tok>>, op: Tok)
    requires PlainTok(op) && forall i :: 0 <= i < |texts| ==> Marks(texts[i]) == 0
    ensures Marks(Join(texts, op)) == 0
  {
    if |texts| > 1 {
      MarksJoin(texts[1..], op);
      PlainTemplate(op);
      hide Marks;
      MarksAppend(texts[0], [op]);
      MarksAppend(texts[0] + [op], Join(texts[1..], op));
    }
  }

  lemma MarksGroup(ts: seq<Tok>)
    ensures Marks(Group(ts)) == Marks(ts)
  {
    PlainTemplate(Open);
    PlainTemplate(Close);
    MarksAppend([Open], ts);
    MarksAppend([Open] + ts, [Close]);
  }

  lemma MarksAssemble(primary: seq<seq<Tok>>, ands: seq<seq<Tok>>, ors: seq<seq<Tok>>)
    requires forall i :: 0 <= i < |primary| ==> Marks(primary[i]) == 0
    requires forall i :: 0 <= i < |ands| ==> Marks(ands[i]) == 0
    requires forall i :: 0 <= i < |ors| ==> Marks(ors[i]) == 0
    ensures Marks(Assemble(primary, ands, ors)) == 0
  {
    var p, a, o, c := Join(primary, And), Join(ands, And), Join(ors, Or), Combine(ands, ors);
    MarksJoin(primary, And);
    MarksJoin(ands, And);
    MarksJoin(ors, Or);
    PlainTemplate(Or);
    PlainTemplate(And);
    hide Marks, Join;
    MarksAppend(a, [Or]);
    MarksAppend(a + [Or], o);
    MarksGroup(c);
    MarksAppend([And], Group(c));
    MarksAppend(p, [And] + Group(c));
    assert p + [] == p;
  }

  lemma WhereNoMarks(m: Model, s: Search, vars: seq<Val>)
    requires AllMatched(m, s)
    ensures Marks(Where(Numbered, m, s, vars).0) == 0
  {
    hide PrimaryTexts, Conditions, Assemble, Matched, Marks, Faithful;
    var (primary, v1) := PrimaryTexts(Numbered, m, s, vars);
    var (wheres, v2) := Conditions(Numbered, m, s.wheres, true, v1);
    var (ors, v3) := Conditions(Numbered, m, s.ors, true, v2);
    var (nots, v4) := Conditions(Numbered, m, s.nots, false, v3);
    PrimaryFaithful(m, s, vars);
    ConditionsFaithful(m, s.wheres, true, v1);
    ConditionsFaithful(m, s.ors, true, v2);
    ConditionsFaithful(m, s.nots, false, v3);
    FaithfulNoMarks(primary, PrimarySays(m, s), vars, v1);
    FaithfulNoMarks(wheres, AllSay(m, s.wheres, true), v1, v2);
    FaithfulNoMarks(ors, AllSay(m, s.ors, true), v2, v3);
    FaithfulNoMarks(nots, AllSay(m, s.nots, false), v3, v4);
    MarksAssemble(primary, wheres + nots, ors);
  }

  // ---------- the clause in every dialect ----------

  lemma {:induction false} NumbersInRange(numbers: seq<nat>, from: nat, vars: seq<Val>)
    requires from <= |vars| && multiset(numbers) == multiset(Upto(from, |vars|))
    ensures InRange(numbers, vars)
  {
    forall i | 0 <= i < |numbers| ensures 1 <= numbers[i] <= |vars| {
      assert numbers[i] in multiset(numbers);
      assert numbers[i] in Upto(from, |vars|);
    }
  }

  /** Values that differ from each other are in their places only in their own order. */
  lemma OwnPlaces(numbers: seq<nat>, from: nat, vars: seq<Val>)
    requires from <= |vars| && |numbers| == |vars| - from && InRange(numbers, vars)
    requires multiset(numbers) == multiset(Upto(from, |vars|))
    ensures numbers == Upto(from, |vars|) ==> InPlace(numbers, vars[from..], vars)
    ensures InPlace(numbers, vars[from..], vars) && Distinct(vars[from..]) ==> numbers == Upto(from, |vars|)
  {
    var vals := vars[from..];
    if InPlace(numbers, vals, vars) && Distinct(vals) {
      forall i | 0 <= i < |numbers| ensures numbers[i] == Upto(from, |vars|)[i] {
        assert numbers[i] in multiset(numbers);
        assert numbers[i] in Upto(from, |vars|);
        assert vals[numbers[i] - 1 - from] == vals[i];
      }
    }
  }

  predicate Distinct(vals: seq<Val>) {
    forall i, j :: 0 <= i < j < |vals| ==> vals[i] != vals[j]
  }

  /** With '?' the clause has exactly one for every value, wherever they stand. */
  lemma WhereMarks(m: Model, s: Search, vars: seq<Val>)
    requires AllMatched(m, s)
    ensures var (text, after) := Where(Question, m, s, vars);
      after == Where(Numbered, m, s, vars).1 && Marks(text) == |after| - |vars|
  {
    hide Where, Erase, Marks, BindsOf, Template;
    WhereLinked(Question, m, s, vars);
    PlaceholderOrder(m, s, vars);
    WhereNoMarks(m, s, vars);
    MarksErased(Where(Numbered, m, s, vars).0);
  }

  /** For trees that fit the dialect, the clause is the numbered one as the dialect shows it. */
  lemma WhereShown(binding: Binding, m: Model, s: Search, vars: seq<Val>)
    requires AllMatched(m, s) && AllFit(binding, SearchTrees(s))
    ensures var (numbered, after) := Where(Numbered, m, s, vars);
      Where(binding, m, s, vars) == (Shown(binding, numbered), after)
  {
    hide Where, Shown;
    WhereLinked(binding, m, s, vars);
  }

  /** So in every dialect the clause with its values says what was asked, with '?' if
      the placeholders are in order. */
  lemma WhereReads(binding: Binding, m: Model, s: Search, vars: seq<Val>)
    requires AllMatched(m, s) && AllFit(binding, SearchTrees(s))
    requires binding.Numbered? || InOrder(s)
    ensures var (text, after) := Where(binding, m, s, vars);
      Reads(binding, text, |vars|, after) == WhereSays(m, s)
  {
    hide Where, Resolve, Erase, Marks, BindsOf, Fill, Upto, WhereSays, InPlace, AllFit, Lits;
    WhereShown(binding, m, s, vars);
    WhereDenotes(m, s, vars);
    if !binding.Numbered? {
      var (numbered, after) := Where(Numbered, m, s, vars);
      PlaceholderOrder(m, s, vars);
      WhereNoMarks(m, s, vars);
      NumbersInRange(BindsOf(numbered), |vars|, after);
      OwnPlaces(BindsOf(numbered), |vars|, after);
      FillErased(numbered, after[|vars|..], after);
    }
  }

  /** With '?', and expressions that begin with a word, it does so only if no expression
      follows a value in its list and the placeholders are in order: for values that
      differ from each other, exactly then. */
  lemma WhereExactly(m: Model, s: Search, vars: seq<Val>)
    requires AllMatched(m, s) && AllWordsFirst(SearchTrees(s))
    requires Distinct(Where(Question, m, s, vars).1[|vars|..])
    ensures var (text, after) := Where(Question, m, s, vars);
      Reads(Question, text, |vars|, after) == WhereSays(m, s) <==> AllFit(Question, SearchTrees(s)) && InOrder(s)
  {
    hide Where, Resolve, Erase, Marks, BindsOf, Fill, Upto, WhereSays, InPlace, AllFit, Lits, Distinct, Template, AllWordsFirst;
    var (text, after) := Where(Question, m, s, vars);
    var numbered := Where(Numbered, m, s, vars).0;
    WhereLinked(Question, m, s, vars);
    WhereMarks(m, s, vars);
    WhereDenotes(m, s, vars);
    PlaceholderOrder(m, s, vars);
    WhereNoMarks(m, s, vars);
    NumbersInRange(BindsOf(numbered), |vars|, after);
    OwnPlaces(BindsOf(numbered), |vars|, after);
    FillErased(numbered, after[|vars|..], after);
    if Reads(Question, text, |vars|, after) == WhereSays(m, s) {
      ReadsAsNumbered(text, numbered, after[|vars|..], after);
    }
  }

  /** The main theorem: for all where/or/not conditions with matching counts and
      balanced parentheses, the clause with its values selects a row if and only
      if the row is not soft-deleted, matches the keys, and satisfies all where
      and not conditions or some or condition. */
  lemma WhereSelects(binding: Binding, m: Model, s: Search, vars: seq<Val>, atom: seq<Tok> -> Truth)
    requires AllMatched(m, s) && AllSound(m, s)
    requires AllFit(binding, SearchTrees(s)) && (binding.Numbered? || InOrder(s))
    ensures var (text, after) := Where(binding, m, s, vars);
      Selects(Reads(binding, text, |vars|, after), atom) <==> Selected(m, s, atom)
  {
    WhereReads(binding, m, s, vars);
    SaysSelects(m, s, atom);
  }

  /** No or condition can reach past the filters. */
  lemma OrCannotEscape(binding: Binding, m: Model, s: Search, vars: seq<Val>, atom: seq<Tok> -> Truth)
    requires AllMatched(m, s) && AllSound(m, s)
    requires AllFit(binding, SearchTrees(s)) && (binding.Numbered? || InOrder(s))
    requires (!s.unscoped && s.deletedAt.Some? && !atom([Word(m.table + "." + s.deletedAt.value + " IS NULL")]).True?)
      || !KeysMatch(m, s.keys, atom)
    ensures var (text, after) := Where(binding, m, s, vars);
      !Selects(Reads(binding, text, |vars|, after), atom)
  {
    hide Where, Reads, Selects;
    WhereSelects(binding, m, s, vars, atom);
  }

  /** `Unscoped` takes the soft-delete filter away, and nothing else. */
  lemma UnscopedFinds(binding: Binding, m: Model, s: Search, vars: seq<Val>)
    ensures s.unscoped ==> Where(binding, m, s, vars) == Where(binding, m, s.(deletedAt := None), vars)
    ensures Where(binding, m, s.(unscoped := true), vars) == Where(binding, m, s.(unscoped := false, deletedAt := None), vars)
  {
    hide Conditions, Assemble, KeyTexts;
  }

  // ---------- one condition in every dialect ----------

  /** A faithful text reads as what it says in every dialect that shows it. */
  lemma FaithfulReads(binding: Binding, numbered: seq<Tok>, says: seq<Tok>, before: seq<Val>, after: seq<Val>)
    requires Faithful(numbered, says, before, after)
    ensures Reads(binding, Shown(binding, numbered), |before|, after) == says
    ensures !binding.Numbered? ==> Marks(Shown(binding, numbered)) == |after| - |before|
  {
    MarksErased(numbered);
    NumbersInRange(BindsOf(numbered), |before|, after);
    OwnPlaces(BindsOf(numbered), |before|, after);
    FillErased(numbered, after[|before|..], after);
  }

  /** Every kind of condition says what it should, in every dialect its trees fit. */
  lemma ConditionReads(binding: Binding, m: Model, q: Query, positive: bool, vars: seq<Val>)
    requires Matched(m, q, positive) && AllFit(binding, QueryTrees(q))
    ensures var (text, after) := Condition(binding, m, q, positive, vars);
      && Reads(binding, text, |vars|, after) == Says(m, q, positive)
      && (!binding.Numbered? ==> Marks(text) == |after| - |vars|)
  {
    hide Condition, Matched, Says, Reads, Faithful, Marks, Shown;
    ConditionLinked(binding, m, q, positive, vars);
    ConditionFaithful(m, q, positive, vars);
    var (numbered, after) := Condition(Numbered, m, q, positive, vars);
    FaithfulReads(binding, numbered, Says(m, q, positive), vars, after);
  }

  /** gorm.Expr("? - ?", v, gorm.Expr("bonus")) */
  function Misplaced(v: Val): Arg { Expr([Mark, Word("-"), Mark], [Plain(v), Expr([Word("bonus")], [])]) }

  lemma MisplacedText(v: Val)
    ensures AddedIn(Question, Misplaced(v), []) == ([Word("bonus"), Word("-"), Mark], [v])
  {
    var exp, args := [Mark, Word("-"), Mark], [Plain(v), Expr([Word("bonus")], [])];
    assert args[1..] == [Expr([Word("bonus")], [])] && args[1..][1..] == [];
    assert ReplaceFirst(exp, [Mark]) == exp;
    assert ReplaceFirst(exp, [Word("bonus")]) == [Word("bonus"), Word("-"), Mark];
    assert AddedIn(Question, args[0], []) == ([Mark], [v]) by { assert [] + [v] == [v]; }
    assert AddedIn(Question, args[1], [v]) == ([Word("bonus")], [v]);
    assert SplicedIn(Question, exp, args, []) == SplicedIn(Question, exp, args[1..], [v]);
  }

  /** An input that fails with '?', without any or or not condition: the text of
      db.Where("total > ?", gorm.Expr("? - ?", v, gorm.Expr("bonus"))) is
      "(total > bonus - ?)". */
  lemma NestedConditionMisplaced(m: Model, v: Val)
    ensures var q := Text([Word("total >"), Mark], [One(Misplaced(v))], true, "");
      && !AllFit(Question, QueryTrees(q))
      && Condition(Question, m, q, true, []) == (Group([Word("total >"), Word("bonus"), Word("-"), Mark]), [v])
  {
    var tree, front := Misplaced(v), [Word("total >")];
    var q := Text(front + [Mark], [One(tree)], true, "");
    assert q.body == [Word("total >"), Mark];
    var text := [Word("bonus"), Word("-"), Mark];
    MisplacedText(v);
    MisplacedFills(tree, text, [v], front);
    assert front + text == [Word("total >"), Word("bonus"), Word("-"), Mark];
    assert QueryTrees(q)[0] == tree;
    assert tree.args[1].Expr? && Carried(tree.args[0]) == 1;
  }

  lemma MisplacedFills(tree: Arg, text: seq<Tok>, after: seq<Val>, front: seq<Tok>)
    requires AddedIn(Question, tree, []) == (text, after) && Template(front) && Marks(front) == 0
    ensures Filled(Question, Group(front + [Mark]), [One(tree)], []) == (Group(front + text), after)
  {
    var none: seq<seq<Tok>> := [];
    assert [One(tree)][1..] == [] && [text] + none == [text];
    assert ArgTexts(Question, [], after) == ([], after);
    assert ArgTexts(Question, [One(tree)], []) == ([text], after);
    FillGroup(front + [Mark], [text]);
    FillAfterPlain(front, [Mark], [text]);
    FillOne([], text);
    assert [Mark] + [] == [Mark] && text + [] == text;
  }
}
