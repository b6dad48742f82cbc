/**
 The WHERE clause (scope.go:564-807): what text each kind of condition becomes,
 how the texts are put together, and what the result means when a database
 reads it with SQL's precedence and three-valued logic.
 */
module WhereClause {
  import opened BindVars
  import opened Options
  import opened SqlReading
  import Strconv = Text

  /** An argument of a condition: one value, a slice to be listed, or a slice of
      slices to be listed as tuples. */
  datatype CondArg = One(a: Arg) | Many(elems: seq<Arg>) | Rows(rows: seq<seq<Arg>>)

  /** A field of a struct that is given as a condition. */
  datatype StructField = StructField(column: string, isIgnored: bool, isBlank: bool, isRelation: bool, value: Arg)

  /** The `query` of a where/or/not condition, by the type the source switches on. */
  datatype Query =
    | Key(n: int)
    | Keys(elems: seq<Arg>)
    | Number(v: Val)
    | Text(body: seq<Tok>, args: seq<CondArg>, comparison: bool, column: string)
    | Columns(entries: seq<(string, Option<Arg>)>)
    | Struct(structTable: string, fields: seq<StructField>)

  datatype Model = Model(table: string, primaryKey: string)

  datatype Search = Search(
    unscoped: bool,
    deletedAt: Option<string>,
    keys: seq<(string, Val)>,
    wheres: seq<Query>,
    ors: seq<Query>,
    nots: seq<Query>)

  function Qualified(m: Model, column: string): Tok { Word(m.table + "." + column) }

  /** An integer key, which is printed and not bound. */
  function Written(n: int): Tok { Word(Strconv.FormatInt(n)) }

  function Eq(positive: bool): Tok { Word(if positive then "=" else "<>") }

  function InOpen(positive: bool): Tok { Word(if positive then "IN (" else "NOT IN (") }

  function Group(body: seq<Tok>): seq<Tok> { [Open] + body + [Close] }

  // ---------- texts as built, over the list of collected values ----------

  function ArgText(binding: Binding, c: CondArg, vars: seq<Val>): (r: (seq<Tok>, seq<Val>))
    ensures vars <= r.1
  {
    match c
    case One(a) => AddedIn(binding, a, vars)
    case Many(elems) =>
      if elems == [] then AddedIn(binding, Expr([Word("NULL")], []), vars)
      else
        var (texts, vars') := AddedAllIn(binding, elems, vars);
        (Join(texts, Word(",")), vars')
    case Rows(rows) =>
      var (texts, vars') := RowTexts(binding, rows, vars);
      (Join(texts, Word(",")), vars')
  }

  function Tuple(list: seq<Tok>): seq<Tok> { [Word("(")] + list + [Word(")")] }

  /** Rows without values are left out. */
  function RowTexts(binding: Binding, rows: seq<seq<Arg>>, vars: seq<Val>): (r: (seq<seq<Tok>>, seq<Val>))
    ensures vars <= r.1
  {
    if rows == [] then ([], vars)
    else
      var (marks, vars') := AddedAllIn(binding, rows[0], vars);
      var (texts, vars'') := RowTexts(binding, rows[1..], vars');
      (if rows[0] == [] then texts else [Tuple(Join(marks, Word(",")))] + texts, vars'')
  }

  /** A slice of slices without any value gives no replacement at all. */
  predicate Gives(c: CondArg) { c.Rows? ==> exists i :: 0 <= i < |c.rows| && c.rows[i] != [] }

  function ArgTexts(binding: Binding, args: seq<CondArg>, vars: seq<Val>): (r: (seq<seq<Tok>>, seq<Val>))
    ensures vars <= r.1
  {
    if args == [] then ([], vars)
    else
      var (text, vars') := ArgText(binding, args[0], vars);
      var (texts, vars'') := ArgTexts(binding, args[1..], vars');
      (if Gives(args[0]) then [text] + texts else texts, vars'')
  }

  function Filled(binding: Binding, template: seq<Tok>, args: seq<CondArg>, vars: seq<Val>): (r: (seq<Tok>, seq<Val>))
    ensures vars <= r.1
  {
    var (texts, vars') := ArgTexts(binding, args, vars);
    (Fill(template, texts), vars')
  }

  function EntryText(binding: Binding, m: Model, entry: (string, Option<Arg>), positive: bool, vars: seq<Val>): (r: (seq<Tok>, seq<Val>))
    ensures vars <= r.1
  {
    match entry.1
    case Some(a) =>
      var (text, vars') := AddedIn(binding, a, vars);
      (Group([Qualified(m, entry.0), Eq(positive)] + text), vars')
    case None => (Group(NullTest(m, entry.0, positive)), vars)
  }

  function NullTest(m: Model, column: string, positive: bool): seq<Tok> {
    [Qualified(m, column), Word(if positive then "IS NULL" else "IS NOT NULL")]
  }

  function EntryTexts(binding: Binding, m: Model, entries: seq<(string, Option<Arg>)>, positive: bool, vars: seq<Val>)
    : (r: (seq<seq<Tok>>, seq<Val>))
    ensures |r.0| == |entries| && vars <= r.1
  {
    if entries == [] then ([], vars)
    else
      var (text, vars') := EntryText(binding, m, entries[0], positive, vars);
      var (texts, vars'') := EntryTexts(binding, m, entries[1..], positive, vars');
      ([text] + texts, vars'')
  }

  /** The fields of a struct that become tests. */
  function StructEntries(fields: seq<StructField>): seq<(string, Option<Arg>)> {
    if fields == [] then []
    else
      var f := fields[0];
      (if !f.isIgnored && !f.isBlank && !f.isRelation then [(f.column, Some(f.value))] else []) + StructEntries(fields[1..])
  }

  /** The text with '?' that a condition on keys or a string query starts from. */
  function Skeleton(m: Model, q: Query, positive: bool): seq<Tok>
    requires q.Keys? || q.Text?
  {
    match q
    case Keys(_) => Group([Qualified(m, m.primaryKey), InOpen(positive), Mark, Word(")")])
    case Text(body, _, comparison, column) =>
      if body == [] then []
      else if positive then Group(body)
      else if comparison then [Not] + Group(body)
      else Group([Qualified(m, column), InOpen(false), Mark, Word(")")])
  }

  /** `buildCondition` */
  function Condition(binding: Binding, m: Model, q: Query, positive: bool, vars: seq<Val>): (r: (seq<Tok>, seq<Val>))
    ensures vars <= r.1
  {
    match q
    case Key(n) => (Group([Qualified(m, m.primaryKey), Eq(positive), Written(n)]), vars)
    case Keys(elems) =>
      if !positive && elems == [] then ([], vars)
      else Filled(binding, Skeleton(m, q, positive), [Many(elems)], vars)
    case Number(v) =>
      var (text, vars') := AddedIn(binding, Plain(v), vars);
      (Group([Qualified(m, m.primaryKey), Eq(positive)] + text), vars')
    case Text(_, args, _, _) => Filled(binding, Skeleton(m, q, positive), args, vars)
    case Columns(entries) =>
      var (texts, vars') := EntryTexts(binding, m, entries, positive, vars);
      (Join(texts, And), vars')
    case Struct(structTable, fields) =>
      var (texts, vars') := EntryTexts(binding, m.(table := structTable), StructEntries(fields), positive, vars);
      (Join(texts, And), vars')
  }

  /** A list of conditions, those with an empty text left out. */
  function Conditions(binding: Binding, m: Model, qs: seq<Query>, positive: bool, vars: seq<Val>): (r: (seq<seq<Tok>>, seq<Val>))
    ensures vars <= r.1
  {
    if qs == [] then ([], vars)
    else
      var (text, vars') := Condition(binding, m, qs[0], positive, vars);
      var (texts, vars'') := Conditions(binding, m, qs[1..], positive, vars');
      (if text == [] then texts else [text] + texts, vars'')
  }

  function DeletedText(m: Model, column: string): seq<Tok> { [Word(m.table + "." + column + " IS NULL")] }

  function KeyTexts(binding: Binding, m: Model, keys: seq<(string, Val)>, vars: seq<Val>): (r: (seq<seq<Tok>>, seq<Val>))
    ensures |r.0| == |keys| && vars <= r.1
  {
    if keys == [] then ([], vars)
    else
      var (text, vars') := AddedIn(binding, Plain(keys[0].1), vars);
      var (texts, vars'') := KeyTexts(binding, m, keys[1..], vars');
      ([[Qualified(m, keys[0].0), Word("=")] + text] + texts, vars'')
  }

  function SoftDelete(s: Search): bool { !s.unscoped && s.deletedAt.Some? }

  /** The soft-delete filter and the primary-key filters. */
  function PrimaryTexts(binding: Binding, m: Model, s: Search, vars: seq<Val>): (r: (seq<seq<Tok>>, seq<Val>))
    ensures vars <= r.1
  {
    var (texts, vars') := KeyTexts(binding, m, s.keys, vars);
    ((if SoftDelete(s) then [DeletedText(m, s.deletedAt.value)] else []) + texts, vars')
  }

  /** Lines 784-806: the pieces put together; empty when there is no condition. */
  function Assemble(primary: seq<seq<Tok>>, ands: seq<seq<Tok>>, ors: seq<seq<Tok>>): seq<Tok> {
    var combined := Combine(ands, ors);
    if primary != [] then
      Join(primary, And) + if combined != [] then [And] + Group(combined) else []
    else combined
  }

  function Combine(ands: seq<seq<Tok>>, ors: seq<seq<Tok>>): seq<Tok> {
    if Join(ands, And) != [] then
      if Join(ors, Or) != [] then Join(ands, And) + [Or] + Join(ors, Or) else Join(ands, And)
    else Join(ors, Or)
  }

  /** `whereSQL`, without the leading WHERE: where and or conditions are collected
      before not conditions, but not conditions are printed before or conditions. */
  function Where(binding: Binding, m: Model, s: Search, vars: seq<Val>): (r: (seq<Tok>, seq<Val>))
    ensures vars <= r.1
  {
    var (primary, v1) := PrimaryTexts(binding, m, s, vars);
    var (wheres, v2) := Conditions(binding, m, s.wheres, true, v1);
    var (ors, v3) := Conditions(binding, m, s.ors, true, v2);
    var (nots, v4) := Conditions(binding, m, s.nots, false, v3);
    (Assemble(primary, wheres + nots, ors), v4)
  }

  // ---------- what the texts should say ----------

  function ArgSays(c: CondArg): seq<Tok> {
    match c
    case One(a) => Inline(a)
    case Many(elems) => if elems == [] then [Word("NULL")] else Join(InlineAll(elems), Word(","))
    case Rows(rows) => Join(RowsSay(rows), Word(","))
  }

  function RowsSay(rows: seq<seq<Arg>>): seq<seq<Tok>> {
    if rows == [] then []
    else (if rows[0] == [] then [] else [Tuple(Join(InlineAll(rows[0]), Word(",")))]) + RowsSay(rows[1..])
  }

  function ArgsSay(args: seq<CondArg>): (r: seq<seq<Tok>>) {
    if args == [] then [] else (if Gives(args[0]) then [ArgSays(args[0])] else []) + ArgsSay(args[1..])
  }

  function EntrySays(m: Model, entry: (string, Option<Arg>), positive: bool): seq<Tok> {
    match entry.1
    case Some(a) => [Qualified(m, entry.0), Eq(positive)] + Inline(a)
    case None => NullTest(m, entry.0, positive)
  }

  function EntriesSay(m: Model, entries: seq<(string, Option<Arg>)>, positive: bool): (r: seq<seq<Tok>>)
    ensures |r| == |entries|
  {
    if entries == [] then [] else [Group(EntrySays(m, entries[0], positive))] + EntriesSay(m, entries[1..], positive)
  }

  function Says(m: Model, q: Query, positive: bool): seq<Tok> {
    match q
    case Key(n) => Group([Qualified(m, m.primaryKey), Eq(positive), Written(n)])
    case Keys(elems) =>
      if !positive && elems == [] then [] else Fill(Skeleton(m, q, positive), [ArgSays(Many(elems))])
    case Number(v) => Group([Qualified(m, m.primaryKey), Eq(positive), Lit(v)])
    case Text(_, args, _, _) => Fill(Skeleton(m, q, positive), ArgsSay(args))
    case Columns(entries) => Join(EntriesSay(m, entries, positive), And)
    case Struct(structTable, fields) => Join(EntriesSay(m.(table := structTable), StructEntries(fields), positive), And)
  }

  function AllSay(m: Model, qs: seq<Query>, positive: bool): seq<seq<Tok>> {
    if qs == [] then []
    else
      var rest := AllSay(m, qs[1..], positive);
      if Says(m, qs[0], positive) == [] then rest else [Says(m, qs[0], positive)] + rest
  }

  function KeysSay(m: Model, keys: seq<(string, Val)>): (r: seq<seq<Tok>>)
    ensures |r| == |keys|
  {
    if keys == [] then [] else [[Qualified(m, keys[0].0), Word("="), Lit(keys[0].1)]] + KeysSay(m, keys[1..])
  }

  function PrimarySays(m: Model, s: Search): seq<seq<Tok>> {
    (if SoftDelete(s) then [DeletedText(m, s.deletedAt.value)] else []) + KeysSay(m, s.keys)
  }

  /** The caller's part: template text, and as many '?' as replacements. */
  predicate Matched(m: Model, q: Query, positive: bool) {
    match q
    case Key(_) => true
    case Number(_) => true
    case Keys(elems) => forall i :: 0 <= i < |elems| ==> WellMatched(elems[i])
    case Text(body, args, _, _) =>
      && Template(body)
      && Marks(Skeleton(m, q, positive)) == |ArgsSay(args)|
      && forall i :: 0 <= i < |args| ==> ArgMatched(args[i])
    case Columns(entries) => EntriesMatched(entries)
    case Struct(_, fields) => forall i :: 0 <= i < |fields| ==> WellMatched(fields[i].value)
  }

  predicate EntriesMatched(entries: seq<(string, Option<Arg>)>) {
    forall i :: 0 <= i < |entries| ==> entries[i].1.Some? ==> WellMatched(entries[i].1.value)
  }

  predicate ArgMatched(c: CondArg) {
    match c
    case One(a) => WellMatched(a)
    case Many(elems) => forall i :: 0 <= i < |elems| ==> WellMatched(elems[i])
    case Rows(rows) => forall i, j :: 0 <= i < |rows| && 0 <= j < |rows[i]| ==> WellMatched(rows[i][j])
  }

  predicate AllMatched(m: Model, s: Search) {
    && (forall i :: 0 <= i < |s.wheres| ==> Matched(m, s.wheres[i], true))
    && (forall i :: 0 <= i < |s.ors| ==> Matched(m, s.ors[i], true))
    && (forall i :: 0 <= i < |s.nots| ==> Matched(m, s.nots[i], false))
  }

  // ---------- each text says what it should ----------

  /** Faithful texts joined by a plain token are faithful. */
  lemma {:induction false} JoinFaithful(texts: seq<seq<Tok>>, says: seq<seq<Tok>>, op: Tok, v0: seq<Val>, v1: seq<Val>)
    requires FaithfulList(texts, says, v0, v1)
    requires !op.Bind? && !op.Lit? && !op.Mark?
    ensures Faithful(Join(texts, op), Join(says, op), v0, v1)
  {
    if texts == [] {
      FaithfulTemplate([], v0);
    } else {
      var mid :| Faithful(texts[0], says[0], v0, mid) && FaithfulList(texts[1..], says[1..], mid, v1);
      if |texts| > 1 {
        JoinFaithful(texts[1..], says[1..], op, mid, v1);
        assert [op][1..] == [];
        FaithfulTemplate([op], mid);
        FaithfulAppend(texts[0], says[0], [op], [op], v0, mid, mid);
        FaithfulAppend(texts[0] + [op], says[0] + [op], Join(texts[1..], op), Join(says[1..], op), v0, mid, v1);
      }
    }
  }

  lemma ArgFaithful(c: CondArg, vars: seq<Val>)
    requires ArgMatched(c)
    ensures Faithful(ArgText(Numbered, c, vars).0, ArgSays(c), vars, ArgText(Numbered, c, vars).1)
  {
    match c
    case One(a) => AddedFaithful(a, vars);
    case Many(elems) =>
      if elems == [] {
        assert [Word("NULL")][1..] == [];
        FaithfulTemplate([Word("NULL")], vars);
        AddedExpr([Word("NULL")], [], vars);
      } else {
        AddedAllFaithful(elems, vars);
        JoinFaithful(AddedAll(elems, vars).0, InlineAll(elems), Word(","), vars, AddedAll(elems, vars).1);
      }
    case Rows(rows) =>
      RowsFaithful(rows, vars);
      JoinFaithful(RowTexts(Numbered, rows, vars).0, RowsSay(rows), Word(","), vars, RowTexts(Numbered, rows, vars).1);
  }

  lemma {:induction false} RowsFaithful(rows: seq<seq<Arg>>, vars: seq<Val>)
    requires forall i, j :: 0 <= i < |rows| && 0 <= j < |rows[i]| ==> WellMatched(rows[i][j])
    ensures FaithfulList(RowTexts(Numbered, rows, vars).0, RowsSay(rows), vars, RowTexts(Numbered, rows, vars).1)
  {
    hide Faithful, WellMatched;
    if rows != [] {
      var (marks, mid) := AddedAll(rows[0], vars);
      RowsFaithful(rows[1..], mid);
      if rows[0] == [] {
        assert mid == vars && RowsSay(rows) == RowsSay(rows[1..]);
      } else {
        AddedAllFaithful(rows[0], vars);
        JoinFaithful(marks, InlineAll(rows[0]), Word(","), vars, mid);
        AroundFaithful([Word("(")], Join(marks, Word(",")), Join(InlineAll(rows[0]), Word(",")), [Word(")")], vars, mid);
        var (texts, says) := (RowTexts(Numbered, rows, vars).0, RowsSay(rows));
        assert texts[1..] == RowTexts(Numbered, rows[1..], mid).0 && says[1..] == RowsSay(rows[1..]);
        assert Faithful(texts[0], says[0], vars, mid);
      }
    }
  }

  lemma {:induction false} NoRows(rows: seq<seq<Arg>>)
    ensures RowsSay(rows) == [] <==> !Gives(Rows(rows))
  {
    if rows != [] {
      NoRows(rows[1..]);
      if rows[0] == [] && Gives(Rows(rows)) {
        var i :| 0 <= i < |rows| && rows[i] != [];
        assert rows[1..][i - 1] == rows[i];
      }
      if RowsSay(rows) != [] && rows[0] == [] {
        var i :| 0 <= i < |rows[1..]| && rows[1..][i] != [];
        assert rows[i + 1] == rows[1..][i];
      }
    }
  }

  /** An argument that gives no replacement leaves the list of values alone. */
  lemma NoReplacement(c: CondArg, vars: seq<Val>)
    requires ArgMatched(c) && !Gives(c)
    ensures ArgText(Numbered, c, vars).1 == vars
  {
    NoRows(c.rows);
    RowsFaithful(c.rows, vars);
  }

  lemma {:induction false} ArgsFaithful(args: seq<CondArg>, vars: seq<Val>)
    requires forall i :: 0 <= i < |args| ==> ArgMatched(args[i])
    ensures FaithfulList(ArgTexts(Numbered, args, vars).0, ArgsSay(args), vars, ArgTexts(Numbered, args, vars).1)
  {
    if args != [] {
      ArgFaithful(args[0], vars);
      var (text, mid) := ArgText(Numbered, args[0], vars);
      ArgsFaithful(args[1..], mid);
      var (texts, after) := ArgTexts(Numbered, args, vars);
      if !Gives(args[0]) {
        NoReplacement(args[0], vars);
        assert ArgsSay(args) == ArgsSay(args[1..]);
        return;
      }
      assert texts[0] == text && texts[1..] == ArgTexts(Numbered, args[1..], mid).0;
      assert ArgsSay(args)[1..] == ArgsSay(args[1..]);
      assert Faithful(texts[0], ArgsSay(args)[0], vars, mid);
    }
  }

  lemma FilledFaithful(template: seq<Tok>, args: seq<CondArg>, vars: seq<Val>)
    requires Template(template) && Marks(template) == |ArgsSay(args)|
    requires forall i :: 0 <= i < |args| ==> ArgMatched(args[i])
    ensures Faithful(Filled(Numbered, template, args, vars).0, Fill(template, ArgsSay(args)), vars, Filled(Numbered, template, args, vars).1)
  {
    ArgsFaithful(args, vars);
    FillFaithful(template, ArgTexts(Numbered, args, vars).0, ArgsSay(args), vars, ArgTexts(Numbered, args, vars).1);
  }

  /** Text around a faithful text, without '?' or placeholders, but possibly with
      values written out. */
  lemma AroundFaithful(before: seq<Tok>, text: seq<Tok>, says: seq<Tok>, after: seq<Tok>, v0: seq<Val>, v1: seq<Val>)
    requires Faithful(text, says, v0, v1)
    requires Fixed(before) && Fixed(after)
    ensures Faithful(before + text + after, before + says + after, v0, v1)
  {
    FixedFaithful(before, v0);
    FixedFaithful(after, v1);
    FaithfulAppend(before, before, text, says, v0, v0, v1);
    FaithfulAppend(before + text, before + says, after, after, v0, v1, v1);
  }

  predicate Fixed(ts: seq<Tok>) {
    forall i :: 0 <= i < |ts| ==> !ts[i].Bind? && !ts[i].Mark?
  }

  lemma {:induction false} FixedFaithful(ts: seq<Tok>, vars: seq<Val>)
    requires Fixed(ts)
    ensures Faithful(ts, ts, vars, vars)
  {
    if ts != [] {
      FixedFaithful(ts[1..], vars);
    }
    assert Resolve(ts, vars) == ts;
    assert Upto(|vars|, |vars|) == [];
  }

  lemma {:induction false} EntriesFaithful(m: Model, entries: seq<(string, Option<Arg>)>, positive: bool, vars: seq<Val>)
    requires EntriesMatched(entries)
    ensures FaithfulList(EntryTexts(Numbered, m, entries, positive, vars).0, EntriesSay(m, entries, positive),
                         vars, EntryTexts(Numbered, m, entries, positive, vars).1)
  {
    if entries != [] {
      var e := entries[0];
      var (text, mid) := EntryText(Numbered, m, e, positive, vars);
      assert Faithful(text, Group(EntrySays(m, e, positive)), vars, mid) by {
        if e.1.Some? {
          var head := [Open, Qualified(m, e.0), Eq(positive)];
          var (t, _) := Added(e.1.value, vars);
          AddedFaithful(e.1.value, vars);
          AroundFaithful(head, t, Inline(e.1.value), [Close], vars, mid);
          assert head + t + [Close] == text;
          assert head + Inline(e.1.value) + [Close] == Group(EntrySays(m, e, positive));
        } else {
          FixedFaithful(text, vars);
        }
      }
      EntriesFaithful(m, entries[1..], positive, mid);
      var (texts, after) := EntryTexts(Numbered, m, entries, positive, vars);
      var says := EntriesSay(m, entries, positive);
      assert texts[0] == text && texts[1..] == EntryTexts(Numbered, m, entries[1..], positive, mid).0;
      assert says[0] == Group(EntrySays(m, e, positive)) && says[1..] == EntriesSay(m, entries[1..], positive);
      assert Faithful(texts[0], says[0], vars, mid);
    }
  }

  lemma ListSkeleton(column: Tok, open: Tok)
    requires column.Word? && open.Word?
    ensures var t := Group([column, open, Mark, Word(")")]);
      Template(t) && Marks(t) == 1
  {
    var t := Group([column, open, Mark, Word(")")]);
    var front, back := [Open, column, open], [Word(")"), Close];
    assert t == front + ([Mark] + back);
    FixedFaithful(front, []);
    FixedFaithful(back, []);
    MarksAppend(front, [Mark] + back);
    assert ([Mark] + back)[1..] == back;
  }

  lemma NumberFaithful(m: Model, v: Val, positive: bool, vars: seq<Val>)
    ensures var q := Number(v);
      Faithful(Condition(Numbered, m, q, positive, vars).0, Says(m, q, positive), vars, Condition(Numbered, m, q, positive, vars).1)
  {
    hide Faithful;
    var head := [Open, Qualified(m, m.primaryKey), Eq(positive)];
    var (text, after) := Added(Plain(v), vars);
    AddedFaithful(Plain(v), vars);
    AroundFaithful(head, text, [Lit(v)], [Close], vars, after);
    assert head + text + [Close] == Condition(Numbered, m, Number(v), positive, vars).0;
    assert head + [Lit(v)] + [Close] == Says(m, Number(v), positive);
  }

  lemma TestsFaithful(m: Model, entries: seq<(string, Option<Arg>)>, positive: bool, vars: seq<Val>)
    requires EntriesMatched(entries)
    ensures var (texts, after) := EntryTexts(Numbered, m, entries, positive, vars);
      Faithful(Join(texts, And), Join(EntriesSay(m, entries, positive), And), vars, after)
  {
    EntriesFaithful(m, entries, positive, vars);
    JoinFaithful(EntryTexts(Numbered, m, entries, positive, vars).0, EntriesSay(m, entries, positive), And,
                 vars, EntryTexts(Numbered, m, entries, positive, vars).1);
  }

  lemma {:induction false} StructMatched(fields: seq<StructField>)
    requires forall i :: 0 <= i < |fields| ==> WellMatched(fields[i].value)
    ensures EntriesMatched(StructEntries(fields))
  {
    hide WellMatched;
    if fields != [] {
      StructMatched(fields[1..]);
      var f, rest := fields[0], StructEntries(fields[1..]);
      assert WellMatched(f.value);
      assert EntriesMatched([(f.column, Some(f.value))] + rest);
      assert [] + rest == rest;
    }
  }

  /** Every kind of condition says what it should. */
  lemma ConditionFaithful(m: Model, q: Query, positive: bool, vars: seq<Val>)
    requires Matched(m, q, positive)
    ensures Faithful(Condition(Numbered, m, q, positive, vars).0, Says(m, q, positive), vars, Condition(Numbered, m, q, positive, vars).1)
  {
    match q
    case Key(n) => FixedFaithful(Says(m, q, positive), vars);
    case Keys(elems) =>
      if !positive && elems == [] {
        FixedFaithful([], vars);
      } else {
        ListSkeleton(Qualified(m, m.primaryKey), InOpen(positive));
        assert [Many(elems)][1..] == [];
        assert ArgsSay([Many(elems)]) == [ArgSays(Many(elems))];
        FilledFaithful(Skeleton(m, q, positive), [Many(elems)], vars);
      }
    case Number(v) =>
      NumberFaithful(m, v, positive, vars);
    case Text(body, args, comparison, column) =>
      FilledFaithful(Skeleton(m, q, positive), args, vars);
    case Columns(entries) =>
      TestsFaithful(m, entries, positive, vars);
    case Struct(structTable, fields) =>
      StructMatched(fields);
      TestsFaithful(m.(table := structTable), StructEntries(fields), positive, vars);
  }

  lemma {:induction false} ConditionsFaithful(m: Model, qs: seq<Query>, positive: bool, vars: seq<Val>)
    requires forall i :: 0 <= i < |qs| ==> Matched(m, qs[i], positive)
    ensures FaithfulList(Conditions(Numbered, m, qs, positive, vars).0, AllSay(m, qs, positive), vars, Conditions(Numbered, m, qs, positive, vars).1)
  {
    if qs != [] {
      var (text, mid) := Condition(Numbered, m, qs[0], positive, vars);
      ConditionFaithful(m, qs[0], positive, vars);
      ConditionsFaithful(m, qs[1..], positive, mid);
      var (texts, after) := Conditions(Numbered, m, qs, positive, vars);
      var says := AllSay(m, qs, positive);
      if text == [] {
        assert Upto(|vars|, |mid|) == [];
        assert mid == vars;
      } else {
        assert texts[0] == text && texts[1..] == Conditions(Numbered, m, qs[1..], positive, mid).0;
        assert says[0] == Says(m, qs[0], positive) && says[1..] == AllSay(m, qs[1..], positive);
        assert Faithful(texts[0], says[0], vars, mid);
      }
    }
  }

  lemma {:induction false} KeysFaithful(m: Model, keys: seq<(string, Val)>, vars: seq<Val>)
    ensures FaithfulList(KeyTexts(Numbered, m, keys, vars).0, KeysSay(m, keys), vars, KeyTexts(Numbered, m, keys, vars).1)
  {
    if keys != [] {
      var head := [Qualified(m, keys[0].0), Word("=")];
      var (t, mid) := Added(Plain(keys[0].1), vars);
      AddedFaithful(Plain(keys[0].1), vars);
      AroundFaithful(head, t, [Lit(keys[0].1)], [], vars, mid);
      assert head + t + [] == head + t && head + [Lit(keys[0].1)] + [] == KeysSay(m, keys)[0];
      KeysFaithful(m, keys[1..], mid);
      var (texts, after) := KeyTexts(Numbered, m, keys, vars);
      assert texts[0] == head + t && texts[1..] == KeyTexts(Numbered, m, keys[1..], mid).0;
      assert KeysSay(m, keys)[1..] == KeysSay(m, keys[1..]);
      assert Faithful(texts[0], KeysSay(m, keys)[0], vars, mid);
    }
  }

  lemma PrimaryFaithful(m: Model, s: Search, vars: seq<Val>)
    ensures FaithfulList(PrimaryTexts(Numbered, m, s, vars).0, PrimarySays(m, s), vars, PrimaryTexts(Numbered, m, s, vars).1)
  {
    KeysFaithful(m, s.keys, vars);
    if SoftDelete(s) {
      var d := DeletedText(m, s.deletedAt.value);
      FixedFaithful(d, vars);
      var (texts, after) := PrimaryTexts(Numbered, m, s, vars);
      var says := PrimarySays(m, s);
      assert texts[0] == d && texts[1..] == KeyTexts(Numbered, m, s.keys, vars).0;
      assert says[0] == d && says[1..] == KeysSay(m, s.keys);
      assert Faithful(texts[0], says[0], vars, vars);
    } else {
      assert [] + KeyTexts(Numbered, m, s.keys, vars).0 == KeyTexts(Numbered, m, s.keys, vars).0;
      assert [] + KeysSay(m, s.keys) == KeysSay(m, s.keys);
    }
  }
}
