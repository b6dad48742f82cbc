/**
 CreateInBatches as it runs (batch_create.go:65-178, 476-518): chunks of elements,
 statements over a transaction, rollback on error, and the keys written back.
 */
module BatchInsert {
  import opened BatchCreate
  import opened Options

  /** The database side: statements wait in a transaction until it is committed.
      It accepts some statements and then may refuse one; each accepted statement
      reports how many rows it affected. */
  class Database {
    var committed: seq<Statement>
    var pending: seq<Statement>
    var inTransaction: bool
    var executed: nat
    const accepts: nat
    const affected: Statement -> nat

    constructor (accepts: nat, affected: Statement -> nat)
      ensures committed == [] && pending == [] && !inTransaction && executed == 0
      ensures this.accepts == accepts && this.affected == affected
    {
      committed, pending, inTransaction, executed := [], [], false, 0;
      this.accepts, this.affected := accepts, affected;
    }

    method Begin()
      requires !inTransaction
      modifies this`pending, this`inTransaction
      ensures inTransaction && pending == []
    {
      inTransaction, pending := true, [];
    }

    method Commit()
      requires inTransaction
      modifies this`committed, this`pending, this`inTransaction
      ensures !inTransaction && pending == [] && committed == old(committed) + old(pending)
    {
      committed := committed + pending;
      inTransaction, pending := false, [];
    }

    method Rollback()
      requires inTransaction
      modifies this`pending, this`inTransaction
      ensures !inTransaction && pending == []
    {
      inTransaction, pending := false, [];
    }

    method Exec(s: Statement) returns (ok: bool, rowsAffected: nat)
      requires inTransaction
      modifies this`pending, this`executed
      ensures ok <==> old(executed) < accepts
      ensures pending == if ok then old(pending) + [s] else old(pending)
      ensures ok ==> rowsAffected == affected(s)
    {
      ok := executed < accepts;
      rowsAffected := 0;
      if ok {
        pending := pending + [s];
        rowsAffected := affected(s);
        executed := executed + 1;
      }
    }
  }

  /** The rows of the elements that are not nil, in order. */
  function RowsOf(elems: seq<Elem>, save: Save): seq<Row> {
    if elems == [] then []
    else
      var last := elems[|elems| - 1];
      RowsOf(elems[..|elems| - 1], save) + if last.Record? then [Plain(last.fields, save)] else []
  }

  predicate NoneBroken(elems: seq<Elem>) {
    forall i :: 0 <= i < |elems| ==> !elems[i].Broken?
  }

  function TotalAffected(affected: Statement -> nat, stmts: seq<Statement>): nat {
    if stmts == [] then 0
    else TotalAffected(affected, stmts[..|stmts| - 1]) + affected(stmts[|stmts| - 1])
  }

  lemma {:induction false} RowsAppend(a: seq<Elem>, b: seq<Elem>, save: Save)
    ensures RowsOf(a + b, save) == RowsOf(a, save) + RowsOf(b, save)
  {
    if b == [] {
      assert a + b == a;
    } else {
      var last := |b| - 1;
      assert (a + b)[..|a + b| - 1] == a + b[..last];
      RowsAppend(a, b[..last], save);
    }
  }

  /** One row for a record, none for a nil element. */
  lemma RowOfOne(elem: Elem, save: Save)
    ensures RowsOf([elem], save) == if elem.Record? then [Plain(elem.fields, save)] else []
  {
    assert [elem][..0] == [];
    assert RowsOf([], save) == [];
  }

  lemma {:induction false} FlattenAppend(a: seq<Statement>, b: seq<Statement>)
    ensures Flatten(a + b) == Flatten(a) + Flatten(b)
  {
    if b == [] {
      assert a + b == a;
    } else {
      var last := |b| - 1;
      assert (a + b)[..|a + b| - 1] == a + b[..last] && (a + b)[|a + b| - 1] == b[last];
      FlattenAppend(a, b[..last]);
    }
  }

  lemma {:induction false} AffectedAppend(affected: Statement -> nat, a: seq<Statement>, b: seq<Statement>)
    ensures TotalAffected(affected, a + b) == TotalAffected(affected, a) + TotalAffected(affected, b)
  {
    if b == [] {
      assert a + b == a;
    } else {
      var last := |b| - 1;
      assert (a + b)[..|a + b| - 1] == a + b[..last];
      AffectedAppend(affected, a, b[..last]);
    }
  }

  lemma {:induction false} RowsWellFormed(elems: seq<Elem>, save: Save)
    ensures forall i :: 0 <= i < |RowsOf(elems, save)| ==> WellFormedRow(RowsOf(elems, save)[i])
  {
    if elems != [] {
      RowsWellFormed(elems[..|elems| - 1], save);
    }
  }

  /** The first loop of `createBatch`: every element prepared, against the columns of
      the row before. */
  method PrepareRows(elems: seq<Elem>, save: Save) returns (ok: bool, rows: seq<Row>)
    ensures ok <==> NoneBroken(elems)
    ensures ok ==> rows == RowsOf(elems, save)
  {
    rows := [];
    var expected: Option<seq<string>> := None;
    var i := 0;
    while i < |elems|
      invariant 0 <= i <= |elems|
      invariant NoneBroken(elems[..i]) && rows == RowsOf(elems[..i], save)
    {
      assert elems[..i + 1][..i] == elems[..i];
      match elems[i] {
        case Nil =>
        case Broken =>
          assert elems[i].Broken?;
          return false, rows;
        case Record(fields) =>
          var row := PrepareRow(fields, expected, save);
          rows := rows + [row];
          // A record without columns leaves a nil slice behind.
          expected := if row.columns == [] then None else Some(row.columns);
      }
      i := i + 1;
    }
    assert elems[..i] == elems;
    ok := true;
  }

  /** The second loop: one statement after another, until one fails. */
  method ExecuteGroups(db: Database, d: Dialect, rows: seq<Row>) returns (ok: bool, total: nat, ghost stmts: seq<Statement>)
    requires db.inTransaction && forall i :: 0 <= i < |rows| ==> WellFormedRow(rows[i])
    modifies db`pending, db`executed
    ensures db.pending == old(db.pending) + stmts
    ensures total == TotalAffected(db.affected, stmts)
    ensures ok ==> GoodPlan(d, stmts, rows)
    ensures !ok ==> Flatten(stmts) < rows && forall i :: 0 <= i < |stmts| ==> GoodStatement(d, stmts[i])
  {
    hide GoodStatement, WellFormedRow, Full, GoodPlan, Flatten, MaxBindVars;
    total, stmts := 0, [];
    var groupStart := 0;
    NoPlan(d);
    assert rows[..0] == [];
    while groupStart < |rows|
      invariant 0 <= groupStart <= |rows|
      invariant GoodPlan(d, stmts, rows[..groupStart])
      invariant db.pending == old(db.pending) + stmts
      invariant total == TotalAffected(db.affected, stmts)
      invariant groupStart < |rows| && stmts != [] && stmts[|stmts| - 1] != [] ==>
        stmts[|stmts| - 1][0].columns != rows[groupStart].columns || Full(d, stmts[|stmts| - 1])
    {
      var groupEnd := NextGroup(d, rows, groupStart);
      var group := rows[groupStart..groupEnd];
      SnocPlan(d, stmts, rows[..groupStart], group);
      assert rows[..groupStart] + group == rows[..groupEnd];
      var done, rowsAffected := db.Exec(group);
      if !done {
        PlanFacts(d, stmts, rows[..groupStart]);
        return false, total, stmts;
      }
      assert (stmts + [group])[..|stmts|] == stmts;
      stmts := stmts + [group];
      total := total + rowsAffected;
      groupStart := groupEnd;
    }
    assert rows[..groupStart] == rows;
    ok := true;
  }

  lemma PlanFacts(d: Dialect, stmts: seq<Statement>, rows: seq<Row>)
    requires GoodPlan(d, stmts, rows)
    ensures Flatten(stmts) == rows && forall i :: 0 <= i < |stmts| ==> GoodStatement(d, stmts[i])
  {}

  lemma NoPlan(d: Dialect)
    ensures GoodPlan(d, [], [])
  {}

  /** `createBatch` */
  method RunBatch(db: Database, d: Dialect, elems: seq<Elem>, save: Save) returns (ok: bool, total: nat, ghost stmts: seq<Statement>)
    requires db.inTransaction
    modifies db`pending, db`executed
    ensures db.pending == old(db.pending) + stmts
    ensures ok ==> total == TotalAffected(db.affected, stmts)
    ensures ok ==> NoneBroken(elems) && GoodPlan(d, stmts, RowsOf(elems, save))
    ensures !NoneBroken(elems) ==> stmts == []
    ensures !ok ==> Flatten(stmts) <= RowsOf(elems, save) && forall i :: 0 <= i < |stmts| ==> GoodStatement(d, stmts[i])
  {
    var prepared, rows := PrepareRows(elems, save);
    if !prepared {
      return false, 0, [];
    }
    RowsWellFormed(elems, save);
    ok, total, stmts := ExecuteGroups(db, d, rows);
  }

  /** All statements of several chunks. */
  ghost predicate GoodStatements(d: Dialect, stmts: seq<Statement>) {
    forall i :: 0 <= i < |stmts| ==> GoodStatement(d, stmts[i])
  }

  predicate NoLonger(stmts: seq<Statement>, size: nat) {
    forall i :: 0 <= i < |stmts| ==> |stmts[i]| <= size
  }

  lemma {:induction false} FewRows(elems: seq<Elem>, save: Save)
    ensures |RowsOf(elems, save)| <= |elems|
  {
    if elems != [] {
      FewRows(elems[..|elems| - 1], save);
    }
  }

  lemma {:induction false} PartsShorter(stmts: seq<Statement>)
    ensures NoLonger(stmts, |Flatten(stmts)|)
  {
    if stmts != [] {
      PartsShorter(stmts[..|stmts| - 1]);
      assert forall i :: 0 <= i < |stmts| - 1 ==> stmts[i] == stmts[..|stmts| - 1][i];
    }
  }

  /** A statement made from one chunk has no more rows than the chunk. */
  lemma WithinChunk(stmts: seq<Statement>, more: seq<Statement>, chunk: seq<Elem>, save: Save, size: nat)
    requires NoLonger(stmts, size) && |chunk| <= size && Flatten(more) <= RowsOf(chunk, save)
    ensures NoLonger(stmts + more, size)
  {
    FewRows(chunk, save);
    PartsShorter(more);
  }

  /** The chunk loop of `createInBatches` (batch_create.go:110-125). */
  method RunChunks(db: Database, d: Dialect, elems: seq<Elem>, size: nat, save: Save)
    returns (ok: bool, total: nat, ghost stmts: seq<Statement>)
    requires db.inTransaction && size >= 1
    modifies db`pending, db`executed
    ensures db.pending == old(db.pending) + stmts && GoodStatements(d, stmts)
    ensures ok ==> NoneBroken(elems) && Flatten(stmts) == RowsOf(elems, save)
    ensures ok ==> total == TotalAffected(db.affected, stmts)
    ensures !ok ==> Flatten(stmts) <= RowsOf(elems, save)
    ensures NoLonger(stmts, size)
  {
    hide GoodStatement, RowsOf, Flatten, TotalAffected, NoLonger;
    total, stmts := 0, [];
    NothingDone(db.affected, save);
    assert elems[..0] == [];
    var start := 0;
    while start < |elems|
      invariant 0 <= start
      invariant var s := if start < |elems| then start else |elems|;
        && NoneBroken(elems[..s]) && Flatten(stmts) == RowsOf(elems[..s], save)
      invariant GoodStatements(d, stmts) && NoLonger(stmts, size)
      invariant db.pending == old(db.pending) + stmts
      invariant total == TotalAffected(db.affected, stmts)
      decreases |elems| - start
    {
      var end := start + size;
      if end > |elems| {
        end := |elems|;
      }
      var done, rowsAffected;
      ghost var more;
      done, rowsAffected, more := RunBatch(db, d, elems[start..end], save);
      ChunkStatements(d, more, elems[start..end], save, done);
      WithinChunk(stmts, more, elems[start..end], save, size);
      FlattenAppend(stmts, more);
      AffectedAppend(db.affected, stmts, more);
      RowsAppend(elems[..start], elems[start..end], save);
      RowsAppend(elems[..end], elems[end..], save);
      assert elems[..start] + elems[start..end] == elems[..end];
      assert elems[..end] + elems[end..] == elems;
      stmts := stmts + more;
      if !done {
        return false, total, stmts;
      }
      total := total + rowsAffected;
      start := start + size;
    }
    assert elems[..|elems|] == elems;
    ok := true;
  }

  lemma ChunkStatements(d: Dialect, more: seq<Statement>, chunk: seq<Elem>, save: Save, done: bool)
    requires if done then GoodPlan(d, more, RowsOf(chunk, save)) else Flatten(more) <= RowsOf(chunk, save)
    ensures Flatten(more) <= RowsOf(chunk, save)
  {}

  lemma NothingDone(affected: Statement -> nat, save: Save)
    ensures (forall size :: NoLonger([], size)) && Flatten([]) == [] && RowsOf([], save) == [] && TotalAffected(affected, []) == 0
  {}

  const DefaultCreateBatchSize: nat := 500

  /** `CreateInBatches` and `SaveInBatches` on a slice. If it opened the transaction
      itself, either every non-nil element has been committed, each in exactly one
      statement and in order, or nothing has. Inside the caller's transaction the
      statements are left pending there. */
  method CreateInBatches(db: Database, d: Dialect, elems: seq<Elem>, batchSize: int, save: Save)
    returns (ok: bool, total: nat, ghost stmts: seq<Statement>)
    modifies db
    ensures GoodStatements(d, stmts)
    ensures ok ==> NoneBroken(elems) && Flatten(stmts) == RowsOf(elems, save)
    ensures ok ==> total == TotalAffected(db.affected, stmts)
    ensures db.inTransaction == old(db.inTransaction)
    ensures !old(db.inTransaction) ==> db.committed == if ok then old(db.committed) + stmts else old(db.committed)
    ensures old(db.inTransaction) ==> db.committed == old(db.committed) && db.pending == old(db.pending) + stmts
    ensures !ok ==> Flatten(stmts) <= RowsOf(elems, save)
    ensures NoLonger(stmts, if batchSize > 0 then batchSize else 500)
  {
    hide GoodStatement, RowsOf, Flatten, TotalAffected, NoLonger;
    NothingDone(db.affected, save);
    var size := if batchSize > 0 then batchSize else DefaultCreateBatchSize;
    if |elems| == 0 {
      assert db.committed + [] == db.committed && db.pending + [] == db.pending;
      return true, 0, [];
    }
    var ownTxn := !db.inTransaction;
    if ownTxn {
      db.Begin();
    }
    ghost var before := db.pending;
    ok, total, stmts := RunChunks(db, d, elems, size, save);
    assert ownTxn ==> [] + stmts == stmts;
    if ownTxn {
      if ok {
        db.Commit();
      } else {
        db.Rollback();
      }
    }
  }

  // ---------- generated keys ----------

  /** A row's primary field as the write-back sees it. */
  datatype KeyField = NoKey | KeyField(blank: bool, value: int)

  /** The identity of the first row, worked out from what the driver reports: the
      last one for SQLite, the first one for MySQL. */
  function FirstId(dialect: string, reported: int, rowsAffected: int): Option<int> {
    if dialect == "sqlite3" then Some(reported - (rowsAffected - 1))
    else if dialect == "mysql" then Some(reported)
    else None
  }

  predicate WritesKeys(dialect: string, keys: seq<KeyField>, rowsAffected: int, lastInsertId: Option<int>) {
    && keys != [] && rowsAffected == |keys|
    && keys[0].KeyField? && keys[0].blank
    && lastInsertId.Some?
    && FirstId(dialect, lastInsertId.value, rowsAffected).Some?
    && FirstId(dialect, lastInsertId.value, rowsAffected).value > 0
  }

  /** `assignBatchPrimaryKeys` */
  method AssignBatchPrimaryKeys(dialect: string, keys: array<KeyField>, rowsAffected: int, lastInsertId: Option<int>)
    modifies keys
    ensures !WritesKeys(dialect, old(keys[..]), rowsAffected, lastInsertId) ==> keys[..] == old(keys[..])
    ensures WritesKeys(dialect, old(keys[..]), rowsAffected, lastInsertId) ==>
      forall i :: 0 <= i < keys.Length ==>
        keys[i] == if old(keys[i]).KeyField? && old(keys[i]).blank
                   then KeyField(false, FirstId(dialect, lastInsertId.value, rowsAffected).value + i)
                   else old(keys[i])
  {
    if keys.Length == 0 || rowsAffected != keys.Length {
      return;
    }
    if keys[0].NoKey? || !keys[0].blank {
      return;
    }
    if lastInsertId.None? {
      return;
    }
    var firstID := lastInsertId.value;
    if dialect == "sqlite3" {
      firstID := firstID - (rowsAffected - 1);
    } else if dialect != "mysql" {
      return;
    }
    if firstID <= 0 {
      return;
    }
    var index := 0;
    while index < keys.Length
      invariant 0 <= index <= keys.Length
      invariant forall i :: index <= i < keys.Length ==> keys[i] == old(keys[i])
      invariant forall i :: 0 <= i < index ==>
        keys[i] == if old(keys[i]).KeyField? && old(keys[i]).blank then KeyField(false, firstID + i) else old(keys[i])
    {
      if keys[index].KeyField? && keys[index].blank {
        keys[index] := KeyField(false, firstID + index);
      }
      index := index + 1;
    }
  }

  /** `assignSingleBatchPrimaryKey`, for dialects that insert one row at a time. */
  method AssignSingleBatchPrimaryKey(keys: array<KeyField>, rowsAffected: int, lastInsertId: Option<int>) returns (ok: bool)
    modifies keys
    ensures var assigns := keys.Length == 1 && rowsAffected == 1 && old(keys[..])[0].KeyField? && old(keys[..])[0].blank;
      && (ok <==> assigns ==> lastInsertId.Some?)
      && keys[..] == if assigns && ok then [KeyField(false, lastInsertId.value)] else old(keys[..])
  {
    if keys.Length != 1 || rowsAffected != 1 {
      return true;
    }
    if keys[0].NoKey? || !keys[0].blank {
      return true;
    }
    if lastInsertId.None? {
      return false;
    }
    keys[0] := KeyField(false, lastInsertId.value);
    ok := true;
  }

  /** Whether the one row of a statement waits for its identity. */
  predicate AwaitsSingle(d: Dialect, save: Save, keys: seq<KeyField>, rowsAffected: int) {
    save.None? && d.maxRows == Some(1) && |keys| == 1 && rowsAffected == 1 && keys[0].KeyField? && keys[0].blank
  }

  predicate FailsToAssign(d: Dialect, save: Save, keys: seq<KeyField>, rowsAffected: int, lastInsertId: Option<int>) {
    AwaitsSingle(d, save, keys, rowsAffected) && lastInsertId.None?
  }

  /** The keys after write-back: blank ones take consecutive identities, if any are assigned. */
  function Assigned(d: Dialect, save: Save, keys: seq<KeyField>, rowsAffected: int, lastInsertId: Option<int>): (r: seq<KeyField>)
    requires !FailsToAssign(d, save, keys, rowsAffected, lastInsertId)
    ensures |r| == |keys|
  {
    var first :=
      if AwaitsSingle(d, save, keys, rowsAffected) then lastInsertId
      else if save.None? && d.maxRows != Some(1) && WritesKeys(d.name, keys, rowsAffected, lastInsertId) then
        FirstId(d.name, lastInsertId.value, rowsAffected)
      else None;
    seq(|keys|, i requires 0 <= i < |keys| =>
      if first.Some? && keys[i].KeyField? && keys[i].blank then KeyField(false, first.value + i) else keys[i])
  }

  /** No key is touched by a save, for another dialect, or when what the driver reports
      does not cover all rows or puts the first of them at or below zero. */
  lemma NothingAssigned(d: Dialect, save: Save, keys: seq<KeyField>, rowsAffected: int, lastInsertId: Option<int>)
    requires
      || save.Some?
      || (d.maxRows == Some(1) && rowsAffected != 1)
      || (d.maxRows != Some(1) && (
          || rowsAffected != |keys| || lastInsertId.None? || d.name !in {"sqlite3", "mysql"}
          || (d.name == "mysql" && lastInsertId.value <= 0)
          || (d.name == "sqlite3" && lastInsertId.value < rowsAffected)))
    ensures !FailsToAssign(d, save, keys, rowsAffected, lastInsertId)
    ensures Assigned(d, save, keys, rowsAffected, lastInsertId) == keys
  {}

  /** The choice between the two (batch_create.go:443-455): a save writes no keys. */
  method WriteBack(d: Dialect, save: Save, keys: array<KeyField>, rowsAffected: int, lastInsertId: Option<int>) returns (ok: bool)
    modifies keys
    ensures ok <==> !FailsToAssign(d, save, old(keys[..]), rowsAffected, lastInsertId)
    ensures keys[..] == if ok then Assigned(d, save, old(keys[..]), rowsAffected, lastInsertId) else old(keys[..])
  {
    ok := true;
    if save.Some? {
      return;
    }
    if d.maxRows == Some(1) {
      ok := AssignSingleBatchPrimaryKey(keys, rowsAffected, lastInsertId);
    } else {
      AssignBatchPrimaryKeys(d.name, keys, rowsAffected, lastInsertId);
    }
  }

  // ---------- rows of one statement agree on blank keys ----------

  /** Records of one struct type whose last primary field is writable and shares its
      column with no other field. */
  predicate SameType(a: seq<Field>, b: seq<Field>, key: nat) {
    && |a| == |b| && key < |a|
    && KeyedRecord(a, key) && KeyedRecord(b, key) && a[key].column == b[key].column
  }

  predicate KeyedRecord(fields: seq<Field>, key: nat)
    requires key < |fields|
  {
    var k := fields[key];
    && k.isPrimaryKey && k.changeable && k.isNormal && !k.isIgnored
    && (forall i :: 0 <= i < |fields| && i != key ==> fields[i].column != k.column)
    && (forall i :: key < i < |fields| ==> !fields[i].isPrimaryKey)
    && (forall i, j :: 0 <= i < |fields| && 0 <= j < |fields[i].foreign| ==> fields[i].foreign[j].0 != k.column)
  }

  lemma InNamesAppend(c: string, a: seq<(string, int)>, b: seq<(string, int)>)
    ensures c in Names(a + b) <==> c in Names(a) || c in Names(b)
  {
    assert Names(a + b) == Names(a) + Names(b);
  }

  lemma {:induction false} KeyColumn(fields: seq<Field>, key: nat, n: nat)
    requires key < |fields| && n <= |fields| && KeyedRecord(fields, key)
    ensures fields[key].column in Names(Appended(fields[..n], None)) <==> key < n && !fields[key].isBlank
    decreases n
  {
    if n > 0 {
      KeyColumn(fields, key, n - 1);
      assert fields[..n][..n - 1] == fields[..n - 1];
      var before, last := Appended(fields[..n - 1], None), Contributed(fields[n - 1], None);
      assert Appended(fields[..n], None) == before + last;
      KeyContributed(fields, key, n - 1);
      hide Names, Contributed, Appended, KeyedRecord;
      InNamesAppend(fields[key].column, before, last);
    }
  }

  lemma KeyContributed(fields: seq<Field>, key: nat, i: nat)
    requires key < |fields| && i < |fields| && KeyedRecord(fields, key)
    ensures fields[key].column in Names(Contributed(fields[i], None)) <==> key == i && !fields[key].isBlank
  {
    var last := Contributed(fields[i], None);
    if i == key {
      assert Names(last) == if fields[key].isBlank then [] else [fields[key].column];
    } else {
      assert forall j :: 0 <= j < |last| ==> last[j].0 != fields[key].column;
    }
  }

  /** In a plain create, rows with the same columns all have a blank key or all have
      one of their own, so identities written back never meet a key that was given. */
  lemma BlankTogether(a: seq<Field>, b: seq<Field>, key: nat)
    requires SameType(a, b, key)
    requires Plain(a, None).columns == Plain(b, None).columns
    ensures a[key].isBlank == b[key].isBlank
  {
    KeyColumn(a, key, |a|);
    KeyColumn(b, key, |b|);
    assert a[..|a|] == a && b[..|b|] == b;
  }

  // ---------- every record gets the identity of its own row ----------

  /** What a database that numbers n new rows base, base+1, ... reports. */
  function Reported(dialect: string, base: int, n: nat): int {
    if dialect == "sqlite3" then base + n - 1 else base
  }

  /** The key the database holds for the i-th row of a statement: the given one, or
      the i-th of the consecutive numbers it started at `base`. */
  function Identity(record: seq<Field>, key: nat, base: int, i: nat): int
    requires key < |record|
  {
    if record[key].isBlank then base + i else record[key].value
  }

  /** A row's primary field, as the write-back finds it. */
  function KeyFieldOf(row: Row): KeyField {
    if row.key.None? then NoKey else KeyField(row.key.value.isBlank, row.key.value.value)
  }

  function PlainRows(records: seq<seq<Field>>): (r: seq<Row>)
    ensures |r| == |records|
  {
    seq(|records|, i requires 0 <= i < |records| => Plain(records[i], None))
  }

  lemma {:induction false} LastPrimary(fields: seq<Field>, key: nat, n: nat)
    requires key < n <= |fields| && KeyedRecord(fields, key)
    ensures KeyOf(fields[..n]) == Some(fields[key])
    decreases n
  {
    if n > key + 1 {
      assert fields[..n][..n - 1] == fields[..n - 1];
      LastPrimary(fields, key, n - 1);
    }
  }

  /** The rows of one statement, from records of one type. */
  ghost predicate OneStatement(d: Dialect, records: seq<seq<Field>>, key: nat) {
    && GoodStatement(d, PlainRows(records))
    && forall i :: 0 <= i < |records| ==> key < |records[i]| && SameType(records[0], records[i], key)
  }

  function KeysOf(records: seq<seq<Field>>): (r: seq<KeyField>)
    ensures |r| == |records|
  {
    seq(|records|, i requires 0 <= i < |records| => KeyFieldOf(PlainRows(records)[i]))
  }

  lemma KeysAgree(d: Dialect, records: seq<seq<Field>>, key: nat)
    requires OneStatement(d, records, key)
    ensures |records| >= 1
    ensures forall i :: 0 <= i < |records| ==>
      && key < |records[i]| && records[i][key].isBlank == records[0][key].isBlank
      && KeysOf(records)[i] == KeyField(records[i][key].isBlank, records[i][key].value)
  {
    var rows := PlainRows(records);
    assert |rows| == |records|;
    forall i | 0 <= i < |records|
      ensures records[i][key].isBlank == records[0][key].isBlank
      ensures KeysOf(records)[i] == KeyField(records[i][key].isBlank, records[i][key].value)
    {
      assert rows[i] == Plain(records[i], None) && rows[0] == Plain(records[0], None);
      assert rows[i].columns == rows[0].columns;
      LastPrimaryOf(records[i], key);
      BlankTogether(records[0], records[i], key);
    }
  }

  lemma LastPrimaryOf(fields: seq<Field>, key: nat)
    requires key < |fields| && KeyedRecord(fields, key)
    ensures Plain(fields, None).key == Some(fields[key])
  {
    LastPrimary(fields, key, |fields|);
    assert fields[..|fields|] == fields;
  }

  /** What the driver reports lets the first identity be worked out. */
  lemma FirstRecovered(dialect: string, base: int, n: nat)
    requires n >= 1 && (dialect == "sqlite3" || dialect == "mysql")
    ensures FirstId(dialect, Reported(dialect, base, n), n) == Some(base)
  {}

  lemma IdentitiesAssigned(d: Dialect, records: seq<seq<Field>>, key: nat, base: int, lastInsertId: Option<int>)
    requires OneStatement(d, records, key) && base > 0
    requires d.maxRows == Some(1) || d.name == "sqlite3" || d.name == "mysql"
    requires |records| >= 1 && key < |records[0]|
    requires records[0][key].isBlank ==> lastInsertId == Some(Reported(d.name, base, |records|))
    ensures !FailsToAssign(d, None, KeysOf(records), |records|, lastInsertId)
    ensures forall i :: 0 <= i < |records| ==>
      && key < |records[i]|
      && Assigned(d, None, KeysOf(records), |records|, lastInsertId)[i] == KeyField(false, Identity(records[i], key, base, i))
  {
    hide OneStatement, KeysOf, Reported, FirstId;
    KeysAgree(d, records, key);
    var keys := KeysOf(records);
    if d.maxRows == Some(1) {
      OneRow(d, records, key);
      assert Reported(d.name, base, 1) == base by { SingleReported(d.name, base); }
    } else {
      FirstRecovered(d.name, base, |records|);
    }
  }

  lemma OneRow(d: Dialect, records: seq<seq<Field>>, key: nat)
    requires OneStatement(d, records, key) && d.maxRows == Some(1)
    ensures |records| == 1
  {}

  lemma SingleReported(dialect: string, base: int)
    ensures Reported(dialect, base, 1) == base
  {}

  /** After a plain create of one statement, whose rows the database numbered
      consecutively where they came without a key, every record holds the key of
      its own row. */
  method OwnIdentities(d: Dialect, records: seq<seq<Field>>, key: nat, base: int, keys: array<KeyField>, lastInsertId: Option<int>)
    returns (ok: bool)
    requires OneStatement(d, records, key) && keys[..] == KeysOf(records)
    requires base > 0 && (d.maxRows == Some(1) || d.name == "sqlite3" || d.name == "mysql")
    requires |records| >= 1 && key < |records[0]|
    requires records[0][key].isBlank ==> lastInsertId == Some(Reported(d.name, base, |records|))
    modifies keys
    ensures ok && keys.Length == |records|
    ensures forall i :: 0 <= i < |records| ==>
      key < |records[i]| && keys[i] == KeyField(false, Identity(records[i], key, base, i))
  {
    hide OneStatement, KeysOf, Reported, Assigned, FailsToAssign;
    IdentitiesAssigned(d, records, key, base, lastInsertId);
    assert keys.Length == |keys[..]| == |records|;
    ok := WriteBack(d, None, keys, |records|, lastInsertId);
    assert forall i :: 0 <= i < |records| ==> keys[i] == keys[..][i];
  }
}
