/**
 Executing many parameter rows (dm/a.go:400-455): rows without off-row values are
 collected into batches, a row with one is executed by itself in between.
 */
module RowBatches {
  import opened Options

  /** A parameter row: its number, and whether binding it needs an off-row upload. */
  datatype Row = Row(id: int, offRow: bool)

  /** One round trip to the server. */
  datatype Call = Batch(rows: seq<Row>) | Single(row: Row)

  /** execRetInfo: the count of the whole call, and a count for each row if the
      server sent them. */
  datatype Info = Info(updateCount: int, updateCounts: Option<seq<int>>)

  datatype Reply = Failed | Done(info: Info)

  /** The server: what it answers to the n-th call. A reply with row counts has one
      for each row. */
  type Server = (nat, Call) -> Reply

  function RowsOf(call: Call): seq<Row> {
    match call case Batch(rows) => rows case Single(row) => [row]
  }

  function AllRows(calls: seq<Call>): seq<Row> {
    if calls == [] then [] else AllRows(calls[..|calls| - 1]) + RowsOf(calls[|calls| - 1])
  }

  /** The counts recorded for one call (`union`): nothing arrives for a batch of
      several rows when the server sent no row counts. */
  function Counts(call: Call, info: Info): (r: seq<int>)
    ensures |r| == |RowsOf(call)|
  {
    var k := |RowsOf(call)|;
    if k == 1 then [info.updateCount]
    else if info.updateCounts.Some? && |info.updateCounts.value| >= k then info.updateCounts.value[..k]
    else seq(k, _ => 0)
  }

  /** Some reply of the server is well-formed for the call. */
  predicate GoodReply(call: Call, reply: Reply) {
    reply.Done? ==>
      reply.info.updateCounts.Some? ==> |reply.info.updateCounts.value| >= |RowsOf(call)|
  }

  predicate AllDone(server: Server, calls: seq<Call>) {
    forall i :: 0 <= i < |calls| ==> server(i, calls[i]).Done?
  }

  function AllCounts(server: Server, calls: seq<Call>): seq<int>
    requires AllDone(server, calls)
  {
    if calls == [] then []
    else
      var last := |calls| - 1;
      AllCounts(server, calls[..last]) + Counts(calls[last], server(last, calls[last]).info)
  }

  /** A batch is a non-empty run of plain rows; a single call carries an off-row row;
      and no batch stops before the run of plain rows does. */
  predicate WellCut(calls: seq<Call>) {
    && (forall i :: 0 <= i < |calls| && calls[i].Batch? ==>
          calls[i].rows != [] && forall k :: 0 <= k < |calls[i].rows| ==> !calls[i].rows[k].offRow)
    && (forall i :: 0 <= i < |calls| && calls[i].Single? ==> calls[i].row.offRow)
    && (forall i :: 0 <= i < |calls| - 1 && calls[i].Batch? ==> calls[i + 1].Single?)
  }

  function PositiveSum(counts: seq<int>): int {
    if counts == [] then 0
    else PositiveSum(counts[..|counts| - 1]) + if counts[|counts| - 1] > 0 then counts[|counts| - 1] else 0
  }

  datatype Result = Error | Ok(updateCounts: seq<int>, updateCount: int)

  /** How far the run of plain rows starting at `from` goes. */
  method PlainRun(rows: seq<Row>, from: nat) returns (end: nat, batch: seq<Row>)
    requires from <= |rows|
    ensures from <= end <= |rows| && batch == rows[from..end]
    ensures forall k :: from <= k < end ==> !rows[k].offRow
    ensures end < |rows| ==> rows[end].offRow
  {
    end, batch := from, [];
    while end < |rows|
      invariant from <= end <= |rows| && batch == rows[from..end]
      invariant forall k :: from <= k < end ==> !rows[k].offRow
    {
      if rows[end].offRow {
        break;
      }
      batch := batch + [rows[end]];
      end := end + 1;
    }
  }

  lemma SnocRows(calls: seq<Call>, call: Call)
    ensures AllRows(calls + [call]) == AllRows(calls) + RowsOf(call)
  {
    assert (calls + [call])[..|calls|] == calls;
  }

  lemma SnocDone(server: Server, calls: seq<Call>, call: Call)
    requires AllDone(server, calls) && server(|calls|, call).Done?
    ensures AllDone(server, calls + [call])
  {}

  lemma SnocCounts(server: Server, calls: seq<Call>, call: Call)
    requires AllDone(server, calls) && server(|calls|, call).Done?
    ensures AllDone(server, calls + [call])
    ensures AllCounts(server, calls + [call]) == AllCounts(server, calls) + Counts(call, server(|calls|, call).info)
  {
    SnocDone(server, calls, call);
    LastCounts(server, calls + [call]);
    assert (calls + [call])[..|calls|] == calls;
    hide AllDone, AllCounts, Counts;
  }

  lemma LastCounts(server: Server, all: seq<Call>)
    requires all != [] && AllDone(server, all)
    ensures var last := |all| - 1;
      AllDone(server, all[..last])
      && AllCounts(server, all) == AllCounts(server, all[..last]) + Counts(all[last], server(last, all[last]).info)
  {
    hide Counts;
  }

  /** Where the k-th row of the n-th call is among all rows, and which value of which
      reply is its count: the whole call's if it ran alone, else the k-th row count, or
      zero if the server sent none. */
  lemma {:induction false} RowCount(server: Server, calls: seq<Call>, n: nat, k: nat)
    requires AllDone(server, calls) && n < |calls| && k < |RowsOf(calls[n])|
    requires GoodReply(calls[n], server(n, calls[n]))
    ensures |AllCounts(server, calls)| == |AllRows(calls)|
    ensures var at, info := |AllRows(calls[..n])| + k, server(n, calls[n]).info;
      && at < |AllRows(calls)| && AllRows(calls)[at] == RowsOf(calls[n])[k]
      && AllCounts(server, calls)[at]
        == (if |RowsOf(calls[n])| == 1 then info.updateCount
            else if info.updateCounts.Some? && k < |info.updateCounts.value| then info.updateCounts.value[k] else 0)
  {
    var last := |calls| - 1;
    LastCounts(server, calls);
    CountsLength(server, calls);
    CountsLength(server, calls[..last]);
    if n < last {
      assert calls[..last][..n] == calls[..n] && calls[..last][n] == calls[n];
      RowCount(server, calls[..last], n, k);
    } else {
      CountOf(calls[n], server(n, calls[n]), k);
      hide *;
      RowAppended(AllRows(calls[..last]), RowsOf(calls[last]), AllCounts(server, calls[..last]),
                  Counts(calls[last], server(last, calls[last]).info), k);
    }
  }

  lemma RowAppended(rows: seq<Row>, more: seq<Row>, counts: seq<int>, others: seq<int>, k: nat)
    requires |rows| == |counts| && k < |more| == |others|
    ensures (rows + more)[|rows| + k] == more[k] && (counts + others)[|rows| + k] == others[k]
  {}

  lemma CountOf(call: Call, reply: Reply, k: nat)
    requires GoodReply(call, reply) && reply.Done? && k < |RowsOf(call)|
    ensures Counts(call, reply.info)[k]
      == (if |RowsOf(call)| == 1 then reply.info.updateCount
          else if reply.info.updateCounts.Some? && k < |reply.info.updateCounts.value| then reply.info.updateCounts.value[k]
          else 0)
  {}

  lemma {:induction false} CountsLength(server: Server, calls: seq<Call>)
    requires AllDone(server, calls)
    ensures |AllCounts(server, calls)| == |AllRows(calls)|
  {
    if calls != [] {
      LastCounts(server, calls);
      CountsLength(server, calls[..|calls| - 1]);
    }
  }

  /** The total follows each row's count, of which only what is above zero tells. */
  lemma {:induction false} TotalFollows(counts: seq<int>, i: nat, v: int)
    requires i < |counts|
    ensures PositiveSum(counts[i := v]) - PositiveSum(counts)
      == (if v > 0 then v else 0) - (if counts[i] > 0 then counts[i] else 0)
  {
    var last := |counts| - 1;
    if i < last {
      assert counts[i := v][..last] == counts[..last][i := v];
      TotalFollows(counts[..last], i, v);
    } else {
      assert counts[i := v][..last] == counts[..last];
    }
  }

  lemma {:induction false} NoneCounted(counts: seq<int>)
    requires forall i :: 0 <= i < |counts| ==> counts[i] <= 0
    ensures PositiveSum(counts) == 0
  {
    if counts != [] {
      NoneCounted(counts[..|counts| - 1]);
    }
  }

  /** `union`: the reply's counts go to the rows of the call. */
  method Union(counts: array<int>, info: Info, startRow: nat, call: Call)
    requires startRow + |RowsOf(call)| <= counts.Length
    requires info.updateCounts.Some? ==> |info.updateCounts.value| >= |RowsOf(call)|
    requires forall i :: startRow <= i < counts.Length ==> counts[i] == 0
    modifies counts
    ensures counts[..startRow + |RowsOf(call)|] == old(counts[..startRow]) + Counts(call, info)
    ensures forall i :: startRow + |RowsOf(call)| <= i < counts.Length ==> counts[i] == 0
  {
    var count := |RowsOf(call)|;
    if count == 1 {
      counts[startRow] := info.updateCount;
    } else if info.updateCounts.Some? {
      forall i | 0 <= i < count {
        counts[startRow + i] := info.updateCounts.value[i];
      }
    }
    var after := startRow + count;
    assert counts[..after] == counts[..startRow] + counts[startRow..after];
    assert counts[startRow..after] == Counts(call, info);
  }

  /** A call added after a run of plain rows, or for the off-row row that ended it. */
  lemma CutMore(calls: seq<Call>, call: Call)
    requires WellCut(calls)
    requires calls != [] && calls[|calls| - 1].Batch? ==> call.Single?
    requires match call
      case Batch(rows) => rows != [] && forall k :: 0 <= k < |rows| ==> !rows[k].offRow
      case Single(row) => row.offRow
    ensures WellCut(calls + [call])
  {}

  method SumPositive(counts: array<int>) returns (sum: int)
    ensures sum == PositiveSum(counts[..])
  {
    sum := 0;
    var i := 0;
    while i < counts.Length
      invariant 0 <= i <= counts.Length && sum == PositiveSum(counts[..i])
    {
      assert counts[..i + 1][..i] == counts[..i];
      if counts[i] > 0 {
        sum := sum + counts[i];
      }
      i := i + 1;
    }
    assert counts[..i] == counts[..];
  }

  /** The calls made so far have executed exactly the first i rows, and their counts
      are recorded. */
  ghost predicate Progress(rows: seq<Row>, i: nat, calls: seq<Call>, counts: seq<int>, server: Server) {
    && i <= |rows| == |counts|
    && WellCut(calls) && AllDone(server, calls)
    && AllRows(calls) == rows[..i]
    && counts[..i] == AllCounts(server, calls)
    && forall k :: i <= k < |counts| ==> counts[k] == 0
  }

  /** One call to the server with the next rows; its counts are recorded for them. */
  method Perform(call: Call, rows: seq<Row>, i: nat, counts: array<int>, server: Server, calls: seq<Call>) returns (ok: bool)
    requires forall n, c :: GoodReply(c, server(n, c))
    requires Progress(rows, i, calls, counts[..], server)
    requires i + |RowsOf(call)| <= |rows| && RowsOf(call) == rows[i..i + |RowsOf(call)|]
    requires WellCut(calls + [call])
    modifies counts
    ensures ok <==> server(|calls|, call).Done?
    ensures ok ==> Progress(rows, i + |RowsOf(call)|, calls + [call], counts[..], server)
    ensures AllRows(calls + [call]) <= rows
  {
    hide AllRows, AllCounts, WellCut, RowsOf, GoodReply;
    SnocRows(calls, call);
    ghost var k := |RowsOf(call)|;
    assert rows[..i] + rows[i..i + k] == rows[..i + k];
    var reply := server(|calls|, call);
    assert GoodReply(call, reply);
    if reply.Failed? {
      return false;
    }
    SnocCounts(server, calls, call);
    assert counts[..][..i] == counts[..i];
    GoodCounts(call, reply);
    Union(counts, reply.info, i, call);
    assert counts[..][..i + k] == counts[..i + k];
    ok := true;
  }

  lemma GoodCounts(call: Call, reply: Reply)
    requires GoodReply(call, reply) && reply.Done?
    ensures reply.info.updateCounts.Some? ==> |reply.info.updateCounts.value| >= |RowsOf(call)|
  {}

  /** What is known when the server has failed. */
  ghost predicate Stopped(rows: seq<Row>, calls: seq<Call>, server: Server) {
    && calls != [] && AllRows(calls) <= rows
    && AllDone(server, calls[..|calls| - 1])
    && server(|calls| - 1, calls[|calls| - 1]).Failed?
  }

  lemma StoppedAfter(rows: seq<Row>, calls: seq<Call>, call: Call, server: Server)
    requires AllDone(server, calls) && AllRows(calls + [call]) <= rows && server(|calls|, call).Failed?
    ensures Stopped(rows, calls + [call], server)
  {
    assert (calls + [call])[..|calls|] == calls;
  }

  /** `Dm_build_102`: every row is executed exactly once and in order; an error
      stops everything after the call that failed. `calls` are the calls made. */
  method Execute(rows: seq<Row>, server: Server) returns (result: Result, calls: seq<Call>)
    requires forall n, call :: GoodReply(call, server(n, call))
    ensures WellCut(calls)
    ensures result.Ok? ==>
      && AllRows(calls) == rows
      && AllDone(server, calls)
      && result.updateCounts == AllCounts(server, calls)
      && |result.updateCounts| == |rows|
      && result.updateCount == PositiveSum(result.updateCounts)
    ensures result.Error? ==> Stopped(rows, calls, server)
  {
    hide AllRows, AllCounts, WellCut, GoodReply, Stopped, AllDone, PositiveSum, Counts, Progress;
    NothingDone(rows, server);
    var counts := new int[|rows|](_ => 0);
    assert counts[..] == seq(|rows|, _ => 0);
    calls := [];
    var i := 0;
    while i < |rows|
      invariant 0 <= i
      invariant Progress(rows, if i < |rows| then i else |rows|, calls, counts[..], server)
      invariant i < |rows| && calls != [] ==> calls[|calls| - 1].Single?
    {
      var j, batch := PlainRun(rows, i);
      SoFar(rows, i, calls, counts[..], server);
      if j != i {
        var call := Batch(batch);
        CutMore(calls, call);
        var ok := Perform(call, rows, i, counts, server, calls);
        if !ok {
          StoppedAfter(rows, calls, call, server);
          return Error, calls + [call];
        }
        calls := calls + [call];
        SoFar(rows, j, calls, counts[..], server);
      }
      if j < |rows| {
        var call := Single(rows[j]);
        assert rows[j..j + 1] == [rows[j]] == RowsOf(call);
        CutMore(calls, call);
        var ok := Perform(call, rows, j, counts, server, calls);
        if !ok {
          StoppedAfter(rows, calls, call, server);
          return Error, calls + [call];
        }
        calls := calls + [call];
      }
      i := j + 1;
    }
    SoFar(rows, |rows|, calls, counts[..], server);
    assert rows[..|rows|] == rows && counts[..][..|rows|] == counts[..];
    var sum := SumPositive(counts);
    result := Ok(counts[..], sum);
  }

  lemma NothingDone(rows: seq<Row>, server: Server)
    ensures Progress(rows, 0, [], seq(|rows|, _ => 0), server) && WellCut([])
  {}

  lemma SoFar(rows: seq<Row>, i: nat, calls: seq<Call>, counts: seq<int>, server: Server)
    requires Progress(rows, i, calls, counts, server)
    ensures i <= |rows| == |counts| && WellCut(calls) && AllDone(server, calls)
    ensures AllRows(calls) == rows[..i] && counts[..i] == AllCounts(server, calls)
  {}
}
