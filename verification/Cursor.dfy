/**
 The result-set cursor (dm/t.go:257-295, 398-512): rows come from the server in
 pages of its own choosing; the cursor hands them out one by one.
 */
module Cursor {
  import opened Options

  type Row = int
  /** What the server does if it is asked for rows: a page of some size, or nothing. */
  datatype Reply = Page(size: nat) | Nothing

  /** innerRows as a value: the page held, where it starts, and the position. */
  datatype View = View(datas: seq<Row>, datasOffset: int, datasStartPos: int, currentPos: int, totalRowCount: int)

  /** A correct reply to a request from `start`: at least one row, none that is not there. */
  function PageOf(table: seq<Row>, start: nat, size: nat): (page: seq<Row>)
    requires start < |table|
    ensures 1 <= |page| && start + |page| <= |table| && page == table[start..start + |page|]
  {
    var k := if size == 0 then 1 else size;
    if start + k <= |table| then table[start..start + k] else table[start..]
  }

  /** The cursor over a result set whose first page came with the execution. */
  function Fresh(table: seq<Row>, first: nat): View
    requires first <= |table|
  {
    View(table[..first], -1, 0, -1, |table|)
  }

  /** The page held is part of the table, and the offset agrees with the position. */
  ghost predicate Valid(v: View, table: seq<Row>) {
    && v.totalRowCount == |table|
    && -1 <= v.currentPos <= |table|
    && 0 <= v.datasStartPos && v.datasStartPos + |v.datas| <= |table|
    && v.datas == table[v.datasStartPos..v.datasStartPos + |v.datas|]
    && v.datasOffset == v.currentPos - v.datasStartPos
    && v.datasStartPos <= v.currentPos + 1
  }

  /** The next row lies outside the page held. */
  predicate NeedsFetch(v: View) {
    && v.totalRowCount != 0 && v.currentPos + 1 < v.totalRowCount
    && (v.currentPos + 1 < v.datasStartPos || v.currentPos + 1 >= v.datasStartPos + |v.datas|)
  }

  /** `Next`, given what the server would answer: the new state and the row, or EOF. */
  function Stepped(v: View, table: seq<Row>, reply: Reply): (View, Option<Row>)
    requires Valid(v, table)
  {
    if v.totalRowCount == 0 || v.currentPos >= v.totalRowCount then (v, None)
    else
      var moved := v.(currentPos := v.currentPos + 1, datasOffset := v.datasOffset + 1);
      if v.currentPos + 1 == v.totalRowCount then (moved, None)
      else if NeedsFetch(v) then
        match reply
        case Nothing => (moved, None)
        case Page(size) =>
          var page := PageOf(table, v.currentPos + 1, size);
          (View(page, 0, v.currentPos + 1, v.currentPos + 1, v.totalRowCount), Some(page[0]))
      else (moved, Some(v.datas[moved.datasOffset]))
  }

  /** The server side: it owns the table and answers every request from it. */
  class Server {
    const table: seq<Row>

    constructor (table: seq<Row>)
      ensures this.table == table
    {
      this.table := table;
    }

    /** `Dm_build_138`: the total and, unless it fails, a page from `start`. */
    method Fetch(start: nat, reply: Reply) returns (total: int, page: Option<seq<Row>>)
      requires start < |table|
      ensures total == |table|
      ensures page == match reply case Nothing => None case Page(size) => Some(PageOf(table, start, size))
    {
      total := |table|;
      page := match reply case Nothing => None case Page(size) => Some(PageOf(table, start, size));
    }
  }

  class InnerRows {
    var datas: seq<Row>
    var datasOffset: int
    var datasStartPos: int
    var currentPos: int
    var totalRowCount: int

    function State(): View
      reads this
    {
      View(datas, datasOffset, datasStartPos, currentPos, totalRowCount)
    }

    /** `newInnerRows` */
    constructor (rsDatas: seq<Row>, updateCount: int)
      ensures State() == View(rsDatas, -1, 0, -1, updateCount)
    {
      datas, totalRowCount := rsDatas, updateCount;
      currentPos, datasOffset, datasStartPos := -1, -1, 0;
    }

    /** `fetchData` */
    method FetchData(startPos: nat, server: Server, reply: Reply) returns (ok: bool)
      requires startPos < |server.table|
      modifies this
      ensures ok <==> reply.Page?
      ensures State() == match reply
        case Nothing => old(State()).(totalRowCount := |server.table|)
        case Page(size) => View(PageOf(server.table, startPos, size), 0, startPos, old(currentPos), |server.table|)
    {
      var total, page := server.Fetch(startPos, reply);
      totalRowCount := total;
      if page.Some? {
        datas := page.value;
        datasStartPos := startPos;
        datasOffset := 0;
        return true;
      }
      return false;
    }

    /** `Next` */
    method Next(server: Server, reply: Reply) returns (row: Option<Row>)
      requires Valid(State(), server.table)
      modifies this
      ensures (State(), row) == Stepped(old(State()), server.table, reply)
    {
      if totalRowCount == 0 || currentPos >= totalRowCount {
        return None;
      }
      if currentPos + 1 == totalRowCount {
        currentPos := currentPos + 1;
        datasOffset := datasOffset + 1;
        return None;
      }
      if currentPos + 1 < datasStartPos || currentPos + 1 >= datasStartPos + |datas| {
        var ok := FetchData(currentPos + 1, server, reply);
        if ok {
          currentPos := currentPos + 1;
          return Some(datas[datasOffset]);
        } else {
          currentPos := currentPos + 1;
          datasOffset := datasOffset + 1;
          return None;
        }
      } else {
        currentPos := currentPos + 1;
        datasOffset := datasOffset + 1;
        return Some(datas[datasOffset]);
      }
    }
  }

  // ---------- runs ----------

  lemma StepValid(v: View, table: seq<Row>, reply: Reply)
    requires Valid(v, table)
    ensures Valid(Stepped(v, table, reply).0, table)
  {}

  /** What a run of calls delivers; the i-th reply is what the server would answer
      to the i-th call if it were asked. */
  function Delivered(v: View, table: seq<Row>, replies: seq<Reply>): (r: seq<Option<Row>>)
    requires Valid(v, table)
    ensures |r| == |replies|
    decreases |replies|
  {
    if replies == [] then []
    else
      StepValid(v, table, replies[0]);
      var (w, row) := Stepped(v, table, replies[0]);
      [row] + Delivered(w, table, replies[1..])
  }

  /** Some request of the run got no page. */
  predicate SomeFetchFails(v: View, table: seq<Row>, replies: seq<Reply>)
    requires Valid(v, table)
    decreases |replies|
  {
    replies != [] &&
    ((NeedsFetch(v) && replies[0].Nothing?)
     || (StepValid(v, table, replies[0]);
         SomeFetchFails(Stepped(v, table, replies[0]).0, table, replies[1..])))
  }

  /** The rows from position `from` on, each once and in order, then EOF for ever. */
  function InOrder(table: seq<Row>, from: nat, calls: nat): (r: seq<Option<Row>>)
    ensures |r| == calls
  {
    seq(calls, i requires 0 <= i => if from + i < |table| then Some(table[from + i]) else None)
  }

  /** However the server cuts its pages, a run delivers every row once, in order,
      and then EOF, exactly when no request for a page fails. */
  lemma {:induction false} RunDelivers(v: View, table: seq<Row>, replies: seq<Reply>)
    requires Valid(v, table)
    ensures Delivered(v, table, replies) == InOrder(table, v.currentPos + 1, |replies|)
      <==> !SomeFetchFails(v, table, replies)
    decreases |replies|
  {
    if replies == [] {
      assert InOrder(table, v.currentPos + 1, 0) == [];
    } else {
      StepValid(v, table, replies[0]);
      StepRow(v, table, replies[0]);
      var (w, row) := Stepped(v, table, replies[0]);
      RunDelivers(w, table, replies[1..]);
      PositionValid(v, table);
      InOrderTail(table, v.currentPos + 1, w.currentPos + 1, |replies|);
      var expected, rest := InOrder(table, v.currentPos + 1, |replies|), Delivered(w, table, replies[1..]);
      assert Delivered(v, table, replies) == [row] + rest;
      SameList(row, rest, expected);
      assert SomeFetchFails(v, table, replies)
        <==> (NeedsFetch(v) && replies[0].Nothing?) || SomeFetchFails(w, table, replies[1..]);
      hide *;
    }
  }

  lemma PositionValid(v: View, table: seq<Row>)
    requires Valid(v, table)
    ensures v.currentPos >= -1
  {}

  lemma SameList(x: Option<Row>, xs: seq<Option<Row>>, ys: seq<Option<Row>>)
    requires ys != []
    ensures [x] + xs == ys <==> x == ys[0] && xs == ys[1..]
  {
    assert ys == [ys[0]] + ys[1..];
    assert ([x] + xs)[1..] == xs;
  }

  /** One call delivers the next row, or EOF behind the last, unless a request fails. */
  lemma StepRow(v: View, table: seq<Row>, reply: Reply)
    requires Valid(v, table)
    ensures var (w, row) := Stepped(v, table, reply);
      var next := if v.currentPos + 1 < |table| then Some(table[v.currentPos + 1]) else None;
      && (row == next <==> !(NeedsFetch(v) && reply.Nothing?))
      && (w.currentPos == v.currentPos + 1 || (w == v && v.currentPos + 1 >= |table|))
  {}

  lemma InOrderTail(table: seq<Row>, from: nat, next: nat, calls: nat)
    requires calls >= 1 && (next == from + 1 || (next == from && from >= |table|))
    ensures var all := InOrder(table, from, calls);
      && all[0] == (if from < |table| then Some(table[from]) else None)
      && all[1..] == InOrder(table, next, calls - 1)
  {}

  /** A new cursor over any first page. */
  lemma FreshRun(table: seq<Row>, first: nat, replies: seq<Reply>)
    requires first <= |table|
    ensures Valid(Fresh(table, first), table)
    ensures Delivered(Fresh(table, first), table, replies) == InOrder(table, 0, |replies|)
      <==> !SomeFetchFails(Fresh(table, first), table, replies)
  {
    assert table[0..first] == table[..first];
    RunDelivers(Fresh(table, first), table, replies);
  }

  /** A row of the page held needs no server; any other comes from a page that starts
      with it. */
  lemma HeldRow(v: View, table: seq<Row>, reply: Reply)
    requires Valid(v, table) && v.currentPos + 1 < |table|
    ensures v.datasStartPos <= v.currentPos + 1 < v.datasStartPos + |v.datas| ==>
      Stepped(v, table, reply) == (v.(currentPos := v.currentPos + 1, datasOffset := v.datasOffset + 1),
                                   Some(table[v.currentPos + 1]))
    ensures !(v.datasStartPos <= v.currentPos + 1 < v.datasStartPos + |v.datas|) ==>
      if reply.Nothing? then Stepped(v, table, reply).1 == None
      else Stepped(v, table, reply) == (View(PageOf(table, v.currentPos + 1, reply.size), 0, v.currentPos + 1,
                                             v.currentPos + 1, |table|), Some(table[v.currentPos + 1]))
  {}

  /** A failed request loses its row: EOF comes out instead, and the cursor has
      moved past the row for good. */
  lemma FailedFetchSkips(v: View, table: seq<Row>)
    requires Valid(v, table) && NeedsFetch(v)
    ensures var (w, row) := Stepped(v, table, Nothing);
      row == None && w.currentPos == v.currentPos + 1 < |table|
  {}
}
