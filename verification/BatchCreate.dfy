/**
 Multi-row INSERT (batch_create.go): elements are prepared in chunks, rows with
 the same columns are grouped into statements within the dialect's limits, and
 generated primary keys are written back.
 */
module BatchCreate {
  import opened Options

  // ---------- elements and rows ----------

  /** A struct field as `prepareBatchCreateRow` looks at it. `foreign` lists the
      belongs-to key columns of a relation that it adds. */
  datatype Field = Field(
    column: string,
    isPrimaryKey: bool,
    isBlank: bool,
    isNormal: bool,
    isIgnored: bool,
    hasDefaultValue: bool,
    changeable: bool,
    belongsTo: bool,
    foreign: seq<(string, int)>,
    value: int)

  /** An element of the slice: a nil pointer, one whose hooks or address fail, or
      a record. */
  datatype Elem = Nil | Broken | Record(fields: seq<Field>)

  /** A prepared row; `key` is the primary field, if there is one. */
  datatype Row = Row(columns: seq<string>, values: seq<int>, key: Option<Field>)

  /** None for a plain create; for a save, whether the primary key is written. */
  type Save = Option<bool>

  /** The columns one field contributes. */
  function Contributed(f: Field, save: Save): seq<(string, int)> {
    if !f.changeable then []
    else if f.isNormal && !f.isIgnored then
      if f.isBlank && f.hasDefaultValue then []
      else if save.Some? && f.isPrimaryKey && !save.value then []
      else if !f.isPrimaryKey || !f.isBlank then [(f.column, f.value)]
      else []
    else if f.belongsTo then f.foreign
    else []
  }

  /** The plain list of columns a record appends. */
  function Appended(fields: seq<Field>, save: Save): seq<(string, int)> {
    if fields == [] then []
    else Appended(fields[..|fields| - 1], save) + Contributed(fields[|fields| - 1], save)
  }

  function Names(cols: seq<(string, int)>): (r: seq<string>)
    ensures |r| == |cols|
  {
    seq(|cols|, i requires 0 <= i < |cols| => cols[i].0)
  }

  function Values(cols: seq<(string, int)>): (r: seq<int>)
    ensures |r| == |cols|
  {
    seq(|cols|, i requires 0 <= i < |cols| => cols[i].1)
  }

  /** The last primary field, as the loop leaves it. */
  function KeyOf(fields: seq<Field>): Option<Field> {
    if fields == [] then None
    else if fields[|fields| - 1].isPrimaryKey then Some(fields[|fields| - 1])
    else KeyOf(fields[..|fields| - 1])
  }

  function Plain(fields: seq<Field>, save: Save): Row {
    Row(Names(Appended(fields, save)), Values(Appended(fields, save)), KeyOf(fields))
  }

  /** The row under construction: while its columns agree with those of the row
      before, they are not copied (batch_create.go:253-267). */
  class RowBuilder {
    const expected: Option<seq<string>>
    var columns: seq<string>
    var values: seq<int>
    var columnsMatch: bool
    var columnIndex: nat

    /** What has been appended so far, however it is stored. */
    ghost predicate Holds(cols: seq<(string, int)>)
      reads this
    {
      && values == Values(cols)
      && columnIndex == |cols|
      && if columnsMatch then
           && expected.Some? && columns == [] && columnIndex <= |expected.value|
           && expected.value[..columnIndex] == Names(cols)
         else columns == Names(cols)
    }

    constructor (expected: Option<seq<string>>)
      ensures Holds([]) && this.expected == expected
    {
      this.expected := expected;
      columns, values, columnIndex := [], [], 0;
      columnsMatch := expected.Some?;
    }

    method AppendColumn(column: string, value: int, ghost cols: seq<(string, int)>)
      requires Holds(cols)
      modifies this
      ensures Holds(cols + [(column, value)])
    {
      if columnsMatch && (columnIndex >= |expected.value| || expected.value[columnIndex] != column) {
        columns := columns + expected.value[..columnIndex];
        columnsMatch := false;
      }
      if !columnsMatch {
        columns := columns + [column];
      }
      values := values + [value];
      columnIndex := columnIndex + 1;
    }

    /** Lines 304-310: share the whole list, or copy the prefix that was used. */
    method Finish(ghost cols: seq<(string, int)>) returns (result: seq<string>)
      requires Holds(cols)
      ensures result == Names(cols)
    {
      result := columns;
      if columnsMatch {
        if columnIndex == |expected.value| {
          result := expected.value;
        } else {
          result := columns + expected.value[..columnIndex];
        }
      }
    }
  }

  /** The shared-prefix bookkeeping never shows: whatever row came before, the row
      has exactly the columns and values its own fields append. */
  method PrepareRow(fields: seq<Field>, expected: Option<seq<string>>, save: Save) returns (row: Row)
    ensures row == Plain(fields, save)
  {
    hide Contributed;
    var builder := new RowBuilder(expected);
    var key: Option<Field> := None;
    var i := 0;
    while i < |fields|
      invariant 0 <= i <= |fields| && fresh(builder)
      invariant builder.Holds(Appended(fields[..i], save)) && key == KeyOf(fields[..i])
    {
      var f := fields[i];
      assert fields[..i + 1][..i] == fields[..i];
      if f.isPrimaryKey {
        key := Some(f);
      }
      AppendField(builder, f, save, Appended(fields[..i], save));
      i := i + 1;
    }
    assert fields[..i] == fields;
    var columns := builder.Finish(Appended(fields, save));
    row := Row(columns, builder.values, key);
  }

  /** One round of the field loop (batch_create.go:269-303). */
  method AppendField(builder: RowBuilder, f: Field, save: Save, ghost cols: seq<(string, int)>)
    requires builder.Holds(cols)
    modifies builder
    ensures builder.Holds(cols + Contributed(f, save))
  {
    assert cols + [] == cols;
    if !f.changeable {
      return;
    }
    if f.isNormal && !f.isIgnored {
      if f.isBlank && f.hasDefaultValue {
        return;
      }
      if save.Some? && f.isPrimaryKey && !save.value {
        return;
      }
      if !f.isPrimaryKey || !f.isBlank {
        builder.AppendColumn(f.column, f.value, cols);
      }
      return;
    }
    if f.belongsTo {
      var k := 0;
      while k < |f.foreign|
        invariant 0 <= k <= |f.foreign|
        invariant builder.Holds(cols + f.foreign[..k])
      {
        builder.AppendColumn(f.foreign[k].0, f.foreign[k].1, cols + f.foreign[..k]);
        assert cols + f.foreign[..k] + [f.foreign[k]] == cols + f.foreign[..k + 1];
        k := k + 1;
      }
      assert f.foreign[..k] == f.foreign;
    }
  }

  // ---------- which columns a row has ----------

  /** A field writes its own column unless it is blank and the database fills it, as a
      default or a generated key, or it is a key that a save leaves alone; a relation
      to a parent writes that parent's keys; a field nobody may change writes nothing. */
  predicate Writes(f: Field, save: Save, name: string, value: int) {
    && f.changeable
    && if f.isNormal && !f.isIgnored then
         && f.column == name && f.value == value
         && (f.isBlank ==> !f.hasDefaultValue && !f.isPrimaryKey)
         && (f.isPrimaryKey ==> save != Some(false))
       else f.belongsTo && (name, value) in f.foreign
  }

  /** A row has exactly the columns its fields write, with their values. */
  lemma {:induction false} RowColumns(fields: seq<Field>, save: Save, name: string, value: int)
    ensures (name, value) in Appended(fields, save) <==>
      exists i :: 0 <= i < |fields| && Writes(fields[i], save, name, value)
  {
    if fields != [] {
      var rest, f := fields[..|fields| - 1], fields[|fields| - 1];
      assert fields == rest + [f];
      RowColumns(rest, save, name, value);
      OneField(f, save, name, value);
      hide Contributed, Writes;
      if Writes(f, save, name, value) {
        assert Writes(fields[|fields| - 1], save, name, value);
      }
      if i :| 0 <= i < |rest| && Writes(rest[i], save, name, value) {
        assert Writes(fields[i], save, name, value);
      }
    }
  }

  lemma OneField(f: Field, save: Save, name: string, value: int)
    ensures (name, value) in Contributed(f, save) <==> Writes(f, save, name, value)
  {}

  /** They stand in the order of the fields. */
  lemma {:induction false} FieldOrder(a: seq<Field>, b: seq<Field>, save: Save)
    ensures Appended(a + b, save) == Appended(a, save) + Appended(b, save)
  {
    hide Contributed;
    if b == [] {
      assert a + b == a;
    } else {
      var rest, f := b[..|b| - 1], b[|b| - 1];
      assert (a + b)[..|a + b| - 1] == a + rest && (a + b)[|a + b| - 1] == f;
      FieldOrder(a, rest, save);
    }
  }

  /** One field writes its own column at most once, or its parent's keys in their order. */
  lemma FieldColumns(f: Field, save: Save)
    ensures Appended([f], save) == []
      || (f.isNormal && !f.isIgnored && Appended([f], save) == [(f.column, f.value)])
      || (f.belongsTo && (!f.isNormal || f.isIgnored) && Appended([f], save) == f.foreign)
  {
    assert [f][..0] == [];
    assert Appended([], save) == [];
    assert Appended([f], save) == Contributed(f, save);
  }

  predicate LastKey(fields: seq<Field>, i: nat)
    requires i < |fields|
  {
    fields[i].isPrimaryKey && forall j :: i < j < |fields| ==> !fields[j].isPrimaryKey
  }

  /** The key kept with a row is its last primary field. */
  lemma {:induction false} KeyIsLast(fields: seq<Field>)
    ensures KeyOf(fields).None? <==> forall i :: 0 <= i < |fields| ==> !fields[i].isPrimaryKey
    ensures forall i :: 0 <= i < |fields| && LastKey(fields, i) ==> KeyOf(fields) == Some(fields[i])
  {
    if fields != [] && !fields[|fields| - 1].isPrimaryKey {
      var rest := fields[..|fields| - 1];
      KeyIsLast(rest);
      assert forall i :: 0 <= i < |rest| ==> rest[i] == fields[i];
    }
  }

  // ---------- limits ----------

  /** The dialect: its name, and the row limit of BatchCreateDialect if it has one. */
  datatype Dialect = Dialect(name: string, maxRows: Option<int>)

  /** The most bound values a statement may carry; 0 means no limit is known. */
  function MaxBindVars(name: string): nat {
    if name == "sqlite3" then 32766
    else if name == "mysql" then 65535
    else if name == "postgres" then 65535
    else if name == "mssql" then 2100
    else 0
  }

  function MaxCreateBatchRows(name: string, columnCount: nat, requested: nat): (r: nat)
    ensures r >= 1
    ensures requested >= 1 ==> r <= requested
    ensures columnCount == 0 ==> r == 1
    ensures MaxBindVars(name) > 0 && r > 1 ==> r * columnCount <= MaxBindVars(name)
    ensures columnCount >= 1 && r < requested ==> MaxBindVars(name) > 0 && (r + 1) * columnCount > MaxBindVars(name)
  {
    var wanted := if requested < 1 then 1 else requested;
    if columnCount < 1 then 1
    else
      var max := MaxBindVars(name);
      if max == 0 then wanted
      else
        var bounded := max / columnCount;
        DivBounds(max, columnCount);
        if bounded < wanted then (if bounded < 1 then 1 else bounded)
        else
          MulMonotone(wanted, bounded, columnCount);
          wanted
  }

  /** The limit each database is known for: as many rows as it binds values for, never
      fewer than one; another dialect takes all that are asked for. */
  lemma KnownLimits(name: string, columnCount: nat, requested: nat)
    requires columnCount >= 1 && requested >= 1
    ensures var r := MaxCreateBatchRows(name, columnCount, requested);
      var limit := if name == "sqlite3" then 32766 else if name == "mssql" then 2100 else 65535;
      if name in {"sqlite3", "mysql", "postgres", "mssql"} then
        && (r == 1 || r * columnCount <= limit)
        && (r == requested || (r + 1) * columnCount > limit)
      else r == requested
  {}

  lemma DivBounds(a: nat, b: nat)
    requires b >= 1
    ensures (a / b) * b <= a < (a / b + 1) * b
    ensures a / b < 1 ==> a < 2 * b
  {}

  /** `sameBatchColumns` */
  method SameBatchColumns(left: seq<string>, right: seq<string>) returns (same: bool)
    ensures same <==> left == right
  {
    if |left| != |right| {
      return false;
    }
    var index := 0;
    while index < |left|
      invariant 0 <= index <= |left| && left[..index] == right[..index]
    {
      if left[index] != right[index] {
        return false;
      }
      index := index + 1;
    }
    assert left[..index] == left && right[..index] == right;
    return true;
  }

  // ---------- the plan ----------

  type Statement = seq<Row>

  function Flatten(stmts: seq<Statement>): seq<Row> {
    if stmts == [] then [] else Flatten(stmts[..|stmts| - 1]) + stmts[|stmts| - 1]
  }

  /** The row limit in force for a statement that starts with these columns. */
  function RowLimit(d: Dialect, columnCount: nat, requested: nat): (r: nat)
    ensures r >= 1
  {
    var max := MaxCreateBatchRows(d.name, columnCount, requested);
    if d.maxRows.Some? && d.maxRows.value > 0 && d.maxRows.value < max then d.maxRows.value else max
  }

  /** A statement the database accepts: rows of one shape, within the limits. */
  ghost predicate GoodStatement(d: Dialect, s: Statement) {
    && s != []
    && (forall i :: 0 <= i < |s| ==> s[i].columns == s[0].columns && |s[i].values| == |s[0].columns|)
    && (MaxBindVars(d.name) > 0 && |s| > 1 ==> |s| * |s[0].columns| <= MaxBindVars(d.name))
    && (|s[0].columns| == 0 ==> |s| == 1)
    && (d.maxRows.Some? && d.maxRows.value > 0 ==> |s| <= d.maxRows.value)
  }

  /** Nothing is split without need: a statement ends where the columns change or
      one more row would not be allowed. */
  ghost predicate NoNeedlessSplit(d: Dialect, stmts: seq<Statement>) {
    forall i :: 0 <= i < |stmts| - 1 && stmts[i] != [] && stmts[i + 1] != [] ==>
      stmts[i][0].columns != stmts[i + 1][0].columns || Full(d, stmts[i])
  }

  ghost predicate Full(d: Dialect, s: Statement)
    requires s != []
  {
    || (d.maxRows.Some? && |s| == d.maxRows.value)
    || |s[0].columns| == 0
    || (MaxBindVars(d.name) > 0 && (|s| + 1) * |s[0].columns| > MaxBindVars(d.name))
  }

  ghost predicate GoodPlan(d: Dialect, stmts: seq<Statement>, rows: seq<Row>) {
    && Flatten(stmts) == rows
    && (forall i :: 0 <= i < |stmts| ==> GoodStatement(d, stmts[i]))
    && NoNeedlessSplit(d, stmts)
  }

  predicate WellFormedRow(r: Row) { |r.values| == |r.columns| }

  /** The next statement: rows from `start` on (batch_create.go:158-168). */
  method NextGroup(d: Dialect, rows: seq<Row>, start: nat) returns (end: nat)
    requires start < |rows| && forall i :: 0 <= i < |rows| ==> WellFormedRow(rows[i])
    ensures start < end <= |rows|
    ensures GoodStatement(d, rows[start..end])
    ensures end < |rows| ==> rows[end].columns != rows[start].columns || Full(d, rows[start..end])
  {
    var maxRows := MaxCreateBatchRows(d.name, |rows[start].columns|, |rows| - start);
    if d.maxRows.Some? {
      var limit := d.maxRows.value;
      if limit > 0 && limit < maxRows {
        maxRows := limit;
      }
    }
    end := start + 1;
    while end < |rows| && end - start < maxRows
      invariant start < end <= |rows| && end - start <= maxRows
      invariant forall i :: start <= i < end ==> rows[i].columns == rows[start].columns
    {
      var same := SameBatchColumns(rows[start].columns, rows[end].columns);
      if !same {
        break;
      }
      end := end + 1;
    }
    GroupWithinLimit(d, |rows[start].columns|, |rows| - start, maxRows, end - start);
  }

  lemma GroupWithinLimit(d: Dialect, columns: nat, requested: nat, maxRows: nat, taken: nat)
    requires requested >= 1 && 1 <= taken <= maxRows && maxRows == RowLimit(d, columns, requested)
    ensures MaxBindVars(d.name) > 0 && taken > 1 ==> taken * columns <= MaxBindVars(d.name)
    ensures columns == 0 ==> taken == 1
    ensures d.maxRows.Some? && d.maxRows.value > 0 ==> taken <= d.maxRows.value
    ensures taken == maxRows && taken < requested ==>
      || (d.maxRows.Some? && taken == d.maxRows.value)
      || columns == 0
      || (MaxBindVars(d.name) > 0 && (taken + 1) * columns > MaxBindVars(d.name))
  {
    hide MaxCreateBatchRows, MaxBindVars;
    var max := MaxCreateBatchRows(d.name, columns, requested);
    assert taken <= max;
    MulMonotone(taken, max, columns);
  }

  lemma MulMonotone(a: nat, b: nat, c: nat)
    requires a <= b
    ensures a * c <= b * c
  {}

  lemma {:induction false} SnocPlan(d: Dialect, stmts: seq<Statement>, rows: seq<Row>, s: Statement)
    requires GoodPlan(d, stmts, rows) && GoodStatement(d, s)
    requires stmts != [] && stmts[|stmts| - 1] != [] ==>
      stmts[|stmts| - 1][0].columns != s[0].columns || Full(d, stmts[|stmts| - 1])
    ensures GoodPlan(d, stmts + [s], rows + s)
  {
    var all := stmts + [s];
    assert all[..|stmts|] == stmts && all[|stmts|] == s;
    forall i | 0 <= i < |all| ensures GoodStatement(d, all[i]) {
      if i < |stmts| { assert all[i] == stmts[i]; }
    }
    forall i | 0 <= i < |all| - 1 && all[i] != [] && all[i + 1] != []
      ensures all[i][0].columns != all[i + 1][0].columns || Full(d, all[i])
    {
      if i < |stmts| - 1 { assert all[i] == stmts[i] && all[i + 1] == stmts[i + 1]; }
    }
  }
}
