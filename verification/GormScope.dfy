/**
 gorm's Scope as it runs: each builder appends to SQLVars and returns text
 (scope.go:267-293, 564-807, 883-894). The methods are proved against the
 functions whose meaning the other modules establish.
 */
module GormScope {
  import opened BindVars
  import opened Options
  import opened QuerySql
  import opened SqlReading
  import opened WhereClause
  import opened WhereMeaning

  // What a builder loop still owes: the texts done so far, then those of the tail.

  ghost predicate Resumes(all: (seq<seq<Tok>>, seq<Val>), done: seq<seq<Tok>>, tail: (seq<seq<Tok>>, seq<Val>)) {
    all == (done + tail.0, tail.1)
  }

  lemma ResumeStart(all: (seq<seq<Tok>>, seq<Val>), done: seq<seq<Tok>>)
    ensures Resumes((done + all.0, all.1), done, all)
    ensures Resumes(all, [], all)
  {
    assert [] + all.0 == all.0;
  }

  lemma ResumeStep(all: (seq<seq<Tok>>, seq<Val>), done: seq<seq<Tok>>, text: seq<Tok>, tail: (seq<seq<Tok>>, seq<Val>))
    requires Resumes(all, done, ([text] + tail.0, tail.1))
    ensures Resumes(all, done + [text], tail)
  {
    assert done + ([text] + tail.0) == done + [text] + tail.0;
  }

  lemma ResumeEnd(all: (seq<seq<Tok>>, seq<Val>), done: seq<seq<Tok>>, vars: seq<Val>)
    requires Resumes(all, done, ([], vars))
    ensures all == (done, vars)
  {
    assert done + [] == done;
  }

  // The specifications, one element at a time from position i.

  lemma AddedAllFrom(binding: Binding, elems: seq<Arg>, i: nat, vars: seq<Val>)
    requires i <= |elems|
    ensures i == |elems| ==> AddedAllIn(binding, elems[i..], vars) == ([], vars)
    ensures i < |elems| ==>
      var (text, vars') := AddedIn(binding, elems[i], vars);
      var tail := AddedAllIn(binding, elems[i + 1..], vars');
      AddedAllIn(binding, elems[i..], vars) == ([text] + tail.0, tail.1)
  {
    if i < |elems| {
      assert elems[i..][0] == elems[i] && elems[i..][1..] == elems[i + 1..];
    }
  }

  lemma ArgTextsFrom(binding: Binding, args: seq<CondArg>, i: nat, vars: seq<Val>)
    requires i <= |args|
    ensures i == |args| ==> ArgTexts(binding, args[i..], vars) == ([], vars)
    ensures i < |args| ==>
      var (text, vars') := ArgText(binding, args[i], vars);
      var tail := ArgTexts(binding, args[i + 1..], vars');
      ArgTexts(binding, args[i..], vars) == (if Gives(args[i]) then [text] + tail.0 else tail.0, tail.1)
  {
    if i < |args| {
      assert args[i..][0] == args[i] && args[i..][1..] == args[i + 1..];
    }
  }

  lemma RowTextsFrom(binding: Binding, rows: seq<seq<Arg>>, i: nat, vars: seq<Val>)
    requires i <= |rows|
    ensures i == |rows| ==> RowTexts(binding, rows[i..], vars) == ([], vars)
    ensures i < |rows| ==>
      var (marks, vars') := AddedAllIn(binding, rows[i], vars);
      var tail := RowTexts(binding, rows[i + 1..], vars');
      && |marks| == |rows[i]|
      && RowTexts(binding, rows[i..], vars) == (if rows[i] == [] then tail.0 else [Tuple(Join(marks, Word(",")))] + tail.0, tail.1)
  {
    hide AddedAllIn;
    if i < |rows| {
      assert rows[i..][0] == rows[i] && rows[i..][1..] == rows[i + 1..];
    }
  }

  /** There are tuples exactly when the argument gives a replacement. */
  lemma {:induction false} RowCount(binding: Binding, rows: seq<seq<Arg>>, vars: seq<Val>)
    ensures |RowTexts(binding, rows, vars).0| == |RowsSay(rows)|
    ensures |RowTexts(binding, rows, vars).0| > 0 <==> Gives(Rows(rows))
  {
    NoRows(rows);
    if rows != [] {
      RowCount(binding, rows[1..], AddedAllIn(binding, rows[0], vars).1);
    }
  }

  lemma EntryTextsFrom(binding: Binding, m: Model, entries: seq<(string, Option<Arg>)>, i: nat, positive: bool, vars: seq<Val>)
    requires i <= |entries|
    ensures i == |entries| ==> EntryTexts(binding, m, entries[i..], positive, vars) == ([], vars)
    ensures i < |entries| ==>
      var (text, vars') := EntryText(binding, m, entries[i], positive, vars);
      var tail := EntryTexts(binding, m, entries[i + 1..], positive, vars');
      EntryTexts(binding, m, entries[i..], positive, vars) == ([text] + tail.0, tail.1)
  {
    if i < |entries| {
      assert entries[i..][0] == entries[i] && entries[i..][1..] == entries[i + 1..];
    }
  }

  lemma ConditionsFrom(binding: Binding, m: Model, qs: seq<WhereClause.Query>, i: nat, positive: bool, vars: seq<Val>)
    requires i <= |qs|
    ensures i == |qs| ==> Conditions(binding, m, qs[i..], positive, vars) == ([], vars)
    ensures i < |qs| ==>
      var (text, vars') := Condition(binding, m, qs[i], positive, vars);
      var tail := Conditions(binding, m, qs[i + 1..], positive, vars');
      Conditions(binding, m, qs[i..], positive, vars) == (if text == [] then tail.0 else [text] + tail.0, tail.1)
  {
    hide Condition;
    if i < |qs| {
      assert qs[i..][0] == qs[i] && qs[i..][1..] == qs[i + 1..];
    }
  }

  lemma KeyTextsFrom(binding: Binding, m: Model, keys: seq<(string, Val)>, i: nat, vars: seq<Val>)
    requires i <= |keys|
    ensures i == |keys| ==> KeyTexts(binding, m, keys[i..], vars) == ([], vars)
    ensures i < |keys| ==>
      var (text, vars') := AddedIn(binding, Plain(keys[i].1), vars);
      var tail := KeyTexts(binding, m, keys[i + 1..], vars');
      KeyTexts(binding, m, keys[i..], vars) == ([[Qualified(m, keys[i].0), Word("=")] + text] + tail.0, tail.1)
  {
    if i < |keys| {
      assert keys[i..][0] == keys[i] && keys[i..][1..] == keys[i + 1..];
    }
  }

  lemma SelectTextsFrom(binding: Binding, args: seq<SelectArg>, i: nat, vars: seq<Val>)
    requires i <= |args|
    ensures i == |args| ==> SelectTexts(binding, args[i..], vars) == ([], vars)
    ensures i < |args| ==>
      var (text, vars') := SelectText(binding, args[i], vars);
      var tail := SelectTexts(binding, args[i + 1..], vars');
      SelectTexts(binding, args[i..], vars) == ([text] + tail.0, tail.1)
  {
    if i < |args| {
      assert args[i..][0] == args[i] && args[i..][1..] == args[i + 1..];
    }
  }

  lemma OrderTextsFrom(binding: Binding, orders: seq<Order>, i: nat, vars: seq<Val>)
    requires i <= |orders|
    ensures i == |orders| ==> OrderTexts(binding, orders[i..], vars) == ([], vars)
    ensures i < |orders| ==>
      var (text, vars') := OrderText(binding, orders[i], vars);
      var tail := OrderTexts(binding, orders[i + 1..], vars');
      OrderTexts(binding, orders[i..], vars) == ([text] + tail.0, tail.1)
  {
    hide OrderText;
    if i < |orders| {
      assert orders[i..][0] == orders[i] && orders[i..][1..] == orders[i + 1..];
    }
  }

  class Scope {
    /** The dialect's placeholder, or '?' when "skip_bindvar" is set. */
    const binding: Binding
    var SQLVars: seq<Val>

    constructor (binding: Binding)
      ensures this.binding == binding && SQLVars == []
    {
      this.binding, SQLVars := binding, [];
    }

    method AddToVars(value: Arg) returns (text: seq<Tok>)
      modifies this`SQLVars
      ensures (text, SQLVars) == AddedIn(binding, value, old(SQLVars))
      decreases value
    {
      match value
      case Plain(v) =>
        SQLVars := SQLVars + [v];
        text := [Placeholder(binding, |SQLVars|)];
      case Expr(template, args) =>
        text := template;
        var i := 0;
        assert args[0..] == args;
        while i < |args|
          invariant 0 <= i <= |args|
          invariant SplicedIn(binding, template, args, old(SQLVars)) == SplicedIn(binding, text, args[i..], SQLVars)
        {
          var bound := AddToVars(args[i]);
          assert args[i..][0] == args[i] && args[i..][1..] == args[i + 1..];
          if !binding.Skipped? {
            text := ReplaceFirst(text, bound);
          }
          i := i + 1;
        }
    }

    method AddEach(elems: seq<Arg>) returns (marks: seq<seq<Tok>>)
      modifies this`SQLVars
      ensures (marks, SQLVars) == AddedAllIn(binding, elems, old(SQLVars))
    {
      hide Resumes, AddedAllIn, AddedIn;
      marks := [];
      var i := 0;
      ghost var all := AddedAllIn(binding, elems, SQLVars);
      assert elems[0..] == elems;
      ResumeStart(all, []);
      while i < |elems|
        invariant 0 <= i <= |elems| && Resumes(all, marks, AddedAllIn(binding, elems[i..], SQLVars))
      {
        ghost var before := SQLVars;
        var mark := AddToVars(elems[i]);
        AddedAllFrom(binding, elems, i, before);
        ResumeStep(all, marks, mark, AddedAllIn(binding, elems[i + 1..], SQLVars));
        marks := marks + [mark];
        i := i + 1;
      }
      AddedAllFrom(binding, elems, i, SQLVars);
      ResumeEnd(all, marks, SQLVars);
    }

    /** The tuples of a slice of slices (scope.go:654-668). */
    method AddRows(rows: seq<seq<Arg>>) returns (tempMarks: seq<seq<Tok>>)
      modifies this`SQLVars
      ensures (tempMarks, SQLVars) == RowTexts(binding, rows, old(SQLVars))
    {
      hide Resumes, RowTexts, AddedAllIn;
      tempMarks := [];
      var i := 0;
      ghost var all := RowTexts(binding, rows, SQLVars);
      assert rows[0..] == rows;
      ResumeStart(all, []);
      while i < |rows|
        invariant 0 <= i <= |rows| && Resumes(all, tempMarks, RowTexts(binding, rows[i..], SQLVars))
      {
        ghost var before := SQLVars;
        var arrayMarks := AddEach(rows[i]);
        RowTextsFrom(binding, rows, i, before);
        if |arrayMarks| > 0 {
          var tuple := Tuple(Join(arrayMarks, Word(",")));
          ResumeStep(all, tempMarks, tuple, RowTexts(binding, rows[i + 1..], SQLVars));
          tempMarks := tempMarks + [tuple];
        }
        i := i + 1;
      }
      RowTextsFrom(binding, rows, i, SQLVars);
      ResumeEnd(all, tempMarks, SQLVars);
    }

    /** The replacements for the arguments of a condition (scope.go:643-690). */
    method Replacements(args: seq<CondArg>) returns (texts: seq<seq<Tok>>)
      modifies this`SQLVars
      ensures (texts, SQLVars) == ArgTexts(binding, args, old(SQLVars))
    {
      hide Resumes, ArgTexts;
      texts := [];
      var i := 0;
      ghost var all := ArgTexts(binding, args, SQLVars);
      assert args[0..] == args;
      ResumeStart(all, []);
      while i < |args|
        invariant 0 <= i <= |args| && Resumes(all, texts, ArgTexts(binding, args[i..], SQLVars))
      {
        ghost var before := SQLVars;
        var text: seq<Tok>;
        var gives := true;
        match args[i] {
          case One(a) =>
            text := AddToVars(a);
          case Rows(rows) =>
            var tempMarks := AddRows(rows);
            RowCount(binding, rows, before);
            text := Join(tempMarks, Word(","));
            gives := |tempMarks| > 0;
          case Many(elems) =>
            if elems == [] {
              text := AddToVars(Expr([Word("NULL")], []));
            } else {
              var marks := AddEach(elems);
              text := Join(marks, Word(","));
            }
        }
        assert (text, SQLVars) == ArgText(binding, args[i], before);
        ArgTextsFrom(binding, args, i, before);
        if gives {
          ResumeStep(all, texts, text, ArgTexts(binding, args[i + 1..], SQLVars));
          texts := texts + [text];
        }
        i := i + 1;
      }
      ArgTextsFrom(binding, args, i, SQLVars);
      ResumeEnd(all, texts, SQLVars);
    }

    /** The buffer loop of scope.go:692-703. */
    static method Substitute(str: seq<Tok>, replacements: seq<seq<Tok>>) returns (buff: seq<Tok>)
      ensures buff == Fill(str, replacements)
    {
      buff := [];
      var pos, i := 0, 0;
      assert str[0..] == str && replacements[0..] == replacements;
      while pos < |str|
        invariant 0 <= pos <= |str| && 0 <= i <= |replacements|
        invariant Fill(str, replacements) == buff + Fill(str[pos..], replacements[i..])
      {
        assert str[pos..][0] == str[pos] && str[pos..][1..] == str[pos + 1..];
        if str[pos] == Mark && |replacements| > i {
          assert replacements[i..][0] == replacements[i] && replacements[i..][1..] == replacements[i + 1..];
          buff := buff + replacements[i];
          i := i + 1;
        } else {
          buff := buff + [str[pos]];
        }
        pos := pos + 1;
      }
      assert str[pos..] == [];
    }

    method FillCondition(str: seq<Tok>, args: seq<CondArg>) returns (text: seq<Tok>)
      modifies this`SQLVars
      ensures (text, SQLVars) == Filled(binding, str, args, old(SQLVars))
    {
      var replacements := Replacements(args);
      text := Substitute(str, replacements);
    }

    /** The map branch of `buildCondition` (scope.go:609-622). */
    method MapCondition(m: Model, entries: seq<(string, Option<Arg>)>, positive: bool) returns (sqls: seq<seq<Tok>>)
      modifies this`SQLVars
      ensures (sqls, SQLVars) == EntryTexts(binding, m, entries, positive, old(SQLVars))
    {
      hide Resumes, EntryTexts;
      sqls := [];
      var i := 0;
      ghost var all := EntryTexts(binding, m, entries, positive, SQLVars);
      assert entries[0..] == entries;
      ResumeStart(all, []);
      while i < |entries|
        invariant 0 <= i <= |entries| && Resumes(all, sqls, EntryTexts(binding, m, entries[i..], positive, SQLVars))
      {
        ghost var before := SQLVars;
        var sql: seq<Tok>;
        var (key, value) := entries[i];
        if value.Some? {
          var bound := AddToVars(value.value);
          sql := Group([Qualified(m, key), Eq(positive)] + bound);
        } else if !positive {
          sql := Group([Qualified(m, key), Word("IS NOT NULL")]);
        } else {
          sql := Group([Qualified(m, key), Word("IS NULL")]);
        }
        assert (sql, SQLVars) == EntryText(binding, m, entries[i], positive, before);
        EntryTextsFrom(binding, m, entries, i, positive, before);
        ResumeStep(all, sqls, sql, EntryTexts(binding, m, entries[i + 1..], positive, SQLVars));
        sqls := sqls + [sql];
        i := i + 1;
      }
      EntryTextsFrom(binding, m, entries, i, positive, SQLVars);
      ResumeEnd(all, sqls, SQLVars);
    }

    /** The struct branch of `buildCondition` (scope.go:623-637). */
    method StructCondition(m: Model, fields: seq<StructField>, positive: bool) returns (sqls: seq<seq<Tok>>)
      modifies this`SQLVars
      ensures (sqls, SQLVars) == EntryTexts(binding, m, StructEntries(fields), positive, old(SQLVars))
    {
      hide Resumes, EntryTexts;
      sqls := [];
      var i := 0;
      ghost var all := EntryTexts(binding, m, StructEntries(fields), positive, SQLVars);
      assert fields[0..] == fields;
      ResumeStart(all, []);
      while i < |fields|
        invariant 0 <= i <= |fields|
        invariant Resumes(all, sqls, EntryTexts(binding, m, StructEntries(fields[i..]), positive, SQLVars))
      {
        ghost var before := SQLVars;
        var field := fields[i];
        assert fields[i..][0] == field && fields[i..][1..] == fields[i + 1..];
        ghost var entries, rest := StructEntries(fields[i..]), StructEntries(fields[i + 1..]);
        if field.isIgnored || field.isBlank || field.isRelation {
          assert entries == rest;
        } else {
          assert entries == [(field.column, Some(field.value))] + rest;
          EntryTextsFrom(binding, m, entries, 0, positive, before);
          assert entries[0..] == entries && entries[1..] == rest;
          var bound := AddToVars(field.value);
          var sql := Group([Qualified(m, field.column), Eq(positive)] + bound);
          ResumeStep(all, sqls, sql, EntryTexts(binding, m, rest, positive, SQLVars));
          sqls := sqls + [sql];
        }
        i := i + 1;
      }
      EntryTextsFrom(binding, m, [], 0, positive, SQLVars);
      ResumeEnd(all, sqls, SQLVars);
    }

    method BuildCondition(m: Model, q: WhereClause.Query, positive: bool) returns (str: seq<Tok>)
      modifies this`SQLVars
      ensures (str, SQLVars) == Condition(binding, m, q, positive, old(SQLVars))
    {
      var equalSQL := Word(if positive then "=" else "<>");
      var inSQL := Word(if positive then "IN (" else "NOT IN (");
      var primaryKey := Qualified(m, m.primaryKey);
      match q
      case Key(n) =>
        str := Group([primaryKey, equalSQL, Written(n)]);
      case Keys(elems) =>
        if !positive && elems == [] {
          str := [];
        } else {
          str := FillCondition(Group([primaryKey, inSQL, Mark, Word(")")]), [Many(elems)]);
        }
      case Number(v) =>
        var bound := AddToVars(Plain(v));
        str := Group([primaryKey, equalSQL] + bound);
      case Text(value, args, comparison, column) =>
        str := [];
        if value != [] {
          if !positive {
            if comparison {
              str := [Not] + Group(value);
            } else {
              str := Group([Qualified(m, column), Word("NOT IN ("), Mark, Word(")")]);
            }
          } else {
            str := Group(value);
          }
        }
        str := FillCondition(str, args);
      case Columns(entries) =>
        var sqls := MapCondition(m, entries, positive);
        str := Join(sqls, And);
      case Struct(structTable, fields) =>
        var sqls := StructCondition(m.(table := structTable), fields, positive);
        str := Join(sqls, And);
    }

    /** The loops of `whereSQL` over one kind of condition, skipping empty texts. */
    method BuildConditions(m: Model, clauses: seq<WhereClause.Query>, positive: bool) returns (conditions: seq<seq<Tok>>)
      modifies this`SQLVars
      ensures (conditions, SQLVars) == Conditions(binding, m, clauses, positive, old(SQLVars))
    {
      hide Resumes, Conditions, Condition;
      conditions := [];
      var i := 0;
      ghost var all := Conditions(binding, m, clauses, positive, SQLVars);
      assert clauses[0..] == clauses;
      ResumeStart(all, []);
      while i < |clauses|
        invariant 0 <= i <= |clauses| && Resumes(all, conditions, Conditions(binding, m, clauses[i..], positive, SQLVars))
      {
        ghost var before := SQLVars;
        var sql := BuildCondition(m, clauses[i], positive);
        ConditionsFrom(binding, m, clauses, i, positive, before);
        if sql != [] {
          ResumeStep(all, conditions, sql, Conditions(binding, m, clauses[i + 1..], positive, SQLVars));
          conditions := conditions + [sql];
        }
        i := i + 1;
      }
      ConditionsFrom(binding, m, clauses, i, positive, SQLVars);
      ResumeEnd(all, conditions, SQLVars);
    }

    method PrimaryConditions(m: Model, s: Search) returns (conditions: seq<seq<Tok>>)
      modifies this`SQLVars
      ensures (conditions, SQLVars) == PrimaryTexts(binding, m, s, old(SQLVars))
    {
      hide Resumes, KeyTexts, AddedIn;
      conditions := [];
      if !s.unscoped && s.deletedAt.Some? {
        conditions := [DeletedText(m, s.deletedAt.value)];
      }
      var i := 0;
      assert s.keys[0..] == s.keys;
      ghost var keys := KeyTexts(binding, m, s.keys, SQLVars);
      ghost var all := (conditions + keys.0, keys.1);
      assert all == PrimaryTexts(binding, m, s, SQLVars);
      ResumeStart(keys, conditions);
      while i < |s.keys|
        invariant 0 <= i <= |s.keys| && Resumes(all, conditions, KeyTexts(binding, m, s.keys[i..], SQLVars))
      {
        ghost var before := SQLVars;
        var bound := AddToVars(Plain(s.keys[i].1));
        var sql := [Qualified(m, s.keys[i].0), Word("=")] + bound;
        KeyTextsFrom(binding, m, s.keys, i, before);
        ResumeStep(all, conditions, sql, KeyTexts(binding, m, s.keys[i + 1..], SQLVars));
        conditions := conditions + [sql];
        i := i + 1;
      }
      KeyTextsFrom(binding, m, s.keys, i, SQLVars);
      ResumeEnd(all, conditions, SQLVars);
    }

    method WhereSQL(m: Model, s: Search) returns (sql: seq<Tok>)
      modifies this`SQLVars
      ensures (sql, SQLVars) == Where(binding, m, s, old(SQLVars))
    {
      hide Condition, PrimaryTexts, Join;
      var primaryConditions := PrimaryConditions(m, s);
      var andConditions := BuildConditions(m, s.wheres, true);
      var orConditions := BuildConditions(m, s.ors, true);
      var notConditions := BuildConditions(m, s.nots, false);
      andConditions := andConditions + notConditions;
      var orSQL := Join(orConditions, Or);
      var combinedSQL := Join(andConditions, And);
      if combinedSQL != [] {
        if orSQL != [] {
          combinedSQL := combinedSQL + [Or] + orSQL;
        }
      } else {
        combinedSQL := orSQL;
      }
      sql := [];
      if primaryConditions != [] {
        sql := Join(primaryConditions, And);
        if combinedSQL != [] {
          sql := sql + ([And] + Group(combinedSQL));
        } else {
          assert sql + [] == sql;
        }
      } else if combinedSQL != [] {
        sql := combinedSQL;
      }
    }

    /** `orderSQL` */
    method SpliceOrder(template: seq<Tok>, args: seq<Arg>) returns (exp: seq<Tok>)
      modifies this`SQLVars
      ensures (exp, SQLVars) == OrderSpliced(binding, template, args, old(SQLVars))
    {
      exp := template;
      var i := 0;
      assert args[0..] == args;
      while i < |args|
        invariant 0 <= i <= |args|
        invariant OrderSpliced(binding, template, args, old(SQLVars)) == OrderSpliced(binding, exp, args[i..], SQLVars)
      {
        var bound := AddToVars(args[i]);
        assert args[i..][0] == args[i] && args[i..][1..] == args[i + 1..];
        exp := ReplaceFirst(exp, bound);
        i := i + 1;
      }
    }

    method OrderSQL(orders: seq<Order>) returns (texts: seq<seq<Tok>>)
      modifies this`SQLVars
      ensures (texts, SQLVars) == OrderTexts(binding, orders, old(SQLVars))
    {
      hide Resumes, OrderTexts, OrderSpliced;
      texts := [];
      var i := 0;
      ghost var all := OrderTexts(binding, orders, SQLVars);
      assert orders[0..] == orders;
      ResumeStart(all, []);
      while i < |orders|
        invariant 0 <= i <= |orders| && Resumes(all, texts, OrderTexts(binding, orders[i..], SQLVars))
      {
        ghost var before := SQLVars;
        var text: seq<Tok>;
        match orders[i] {
          case Column(name) => text := [Word(name)];
          case By(template, args) => text := SpliceOrder(template, args);
        }
        OrderTextsFrom(binding, orders, i, before);
        ResumeStep(all, texts, text, OrderTexts(binding, orders[i + 1..], SQLVars));
        texts := texts + [text];
        i := i + 1;
      }
      OrderTextsFrom(binding, orders, i, SQLVars);
      ResumeEnd(all, texts, SQLVars);
    }

    /** The replacements of `buildSelectQuery` (scope.go:708-733). */
    method SelectReplacements(args: seq<SelectArg>) returns (texts: seq<seq<Tok>>)
      modifies this`SQLVars
      ensures (texts, SQLVars) == SelectTexts(binding, args, old(SQLVars))
    {
      hide Resumes, SelectTexts;
      texts := [];
      var i := 0;
      ghost var all := SelectTexts(binding, args, SQLVars);
      assert args[0..] == args;
      ResumeStart(all, []);
      while i < |args|
        invariant 0 <= i <= |args| && Resumes(all, texts, SelectTexts(binding, args[i..], SQLVars))
      {
        ghost var before := SQLVars;
        var text: seq<Tok>;
        match args[i] {
          case Single(a) =>
            text := AddToVars(a);
          case Listed(elems) =>
            var marks := AddEach(elems);
            text := Join(marks, Word(","));
        }
        SelectTextsFrom(binding, args, i, before);
        ResumeStep(all, texts, text, SelectTexts(binding, args[i + 1..], SQLVars));
        texts := texts + [text];
        i := i + 1;
      }
      SelectTextsFrom(binding, args, i, SQLVars);
      ResumeEnd(all, texts, SQLVars);
    }

    /** `prepareQuerySQL`. The source panics when the select list has more '?' than
        arguments. */
    method PrepareQuerySQL(m: Model, q: QuerySql.Query) returns (sql: seq<Tok>)
      requires SQLVars == [] && (q.raw || Marks(q.columns) <= |q.columnArgs|)
      modifies this`SQLVars
      ensures (sql, SQLVars) == Prepared(binding, m, q)
    {
      hide Condition, Where, Statement;
      var columns: seq<Tok> := [];
      if !q.raw {
        var columnTexts := SelectReplacements(q.columnArgs);
        columns := Substitute(q.columns, columnTexts);
      }
      var joinTexts := BuildConditions(m, q.joins, true);
      var joins := TrimAll(joinTexts);
      var cond := WhereSQL(m, q.search);
      var having := BuildConditions(m, q.having, true);
      var orders := OrderSQL(q.orders);
      sql := Statement(m, q, columns, joins, cond, having, orders);
    }
  }
}
