/**
 Matching result columns to struct fields (scope.go:495-521). Columns may repeat
 and several fields may share a name; the plan sends no two columns to one field.
 */
module ScanPlan {

  datatype Field = Field(dbName: string, isNormal: bool)

  predicate MatchAt(fields: seq<Field>, column: string, k: int) {
    0 <= k < |fields| && fields[k].dbName == column
  }

  /** The field for `column` among fields[from..], given that `found` (or -1) is the
      last match before: the first normal match, failing that the last match. */
  function Pick(fields: seq<Field>, column: string, from: nat, found: int): int
    requires from <= |fields|
    decreases |fields| - from
  {
    if from == |fields| then found
    else if fields[from].dbName == column then
      if fields[from].isNormal then from else Pick(fields, column, from + 1, from)
    else Pick(fields, column, from + 1, found)
  }

  /** What Pick finds, without saying how. */
  lemma {:induction false} PickMeaning(fields: seq<Field>, column: string, from: nat, found: int)
    requires from <= |fields| && -1 <= found < from
    ensures var r := Pick(fields, column, from, found);
      && (r == found || (from <= r && MatchAt(fields, column, r)))
      && (r == found <==> forall k :: from <= k < |fields| ==> !MatchAt(fields, column, k))
      && (forall k :: from <= k < |fields| && MatchAt(fields, column, k) && fields[k].isNormal
            ==> r <= k && fields[r].isNormal)
      && (r != found && !fields[r].isNormal ==> forall k :: r < k < |fields| ==> !MatchAt(fields, column, k))
    decreases |fields| - from
  {
    if from < |fields| {
      if fields[from].dbName == column {
        assert MatchAt(fields, column, from);
        if !fields[from].isNormal {
          PickMeaning(fields, column, from + 1, from);
        }
      } else {
        PickMeaning(fields, column, from + 1, found);
      }
    }
  }

  /** One past the field last chosen for this column name, or 0. */
  function Offset(columns: seq<string>, plan: seq<int>, column: string): int
    requires |plan| <= |columns|
  {
    if plan == [] then 0
    else
      var last := |plan| - 1;
      if columns[last] == column && plan[last] >= 0 then plan[last] + 1
      else Offset(columns, plan[..last], column)
  }

  /** The plan of the columns seen so far. */
  ghost predicate PlanFor(columns: seq<string>, fields: seq<Field>, plan: seq<int>) {
    && |plan| <= |columns|
    && forall i :: 0 <= i < |plan| ==>
        var from := Offset(columns, plan[..i], columns[i]);
        0 <= from <= |fields| && plan[i] == Pick(fields, columns[i], from, -1)
  }

  /** One more column, chosen as it should be. */
  lemma PlanExtend(columns: seq<string>, fields: seq<Field>, seen: seq<int>, now: seq<int>)
    requires PlanFor(columns, fields, seen) && |seen| < |columns|
    requires |now| == |seen| + 1 && now[..|seen|] == seen
    requires var from := Offset(columns, seen, columns[|seen|]);
      0 <= from <= |fields| && now[|seen|] == Pick(fields, columns[|seen|], from, -1)
    ensures PlanFor(columns, fields, now)
  {
    forall i | 0 <= i < |now|
      ensures var from := Offset(columns, now[..i], columns[i]);
        0 <= from <= |fields| && now[i] == Pick(fields, columns[i], from, -1)
    {
      if i < |seen| {
        assert now[..i] == seen[..i] && now[i] == seen[i];
      }
    }
  }

  /** The inner loop (scope.go:509-517). */
  method SelectField(fields: seq<Field>, column: string, offset: nat) returns (found: int)
    requires offset <= |fields|
    ensures found == Pick(fields, column, offset, -1)
  {
    found := -1;
    var k := offset;
    while k < |fields|
      invariant offset <= k <= |fields|
      invariant Pick(fields, column, offset, -1) == Pick(fields, column, k, found)
    {
      if fields[k].dbName == column {
        found := k;
        if fields[k].isNormal {
          break;
        }
      }
      k := k + 1;
    }
  }

  /** `selected` remembers the last field chosen for each column name. */
  ghost predicate Remembers(columns: seq<string>, seen: seq<int>, selected: map<string, int>)
    requires |seen| <= |columns|
  {
    forall c :: Offset(columns, seen, c) == if c in selected then selected[c] + 1 else 0
  }

  method BuildScanPlan(columns: seq<string>, fields: seq<Field>) returns (plan: array<int>)
    ensures fresh(plan) && plan.Length == |columns|
    ensures PlanFor(columns, fields, plan[..])
  {
    plan := new int[|columns|](_ => -1);
    var selected: map<string, int> := map[];
    var index := 0;
    while index < |columns|
      invariant 0 <= index <= |columns|
      invariant PlanFor(columns, fields, plan[..index])
      invariant forall c :: c in selected ==> 0 <= selected[c] < |fields|
      invariant Remembers(columns, plan[..index], selected)
    {
      var column := columns[index];
      var offset := if column in selected then selected[column] + 1 else 0;
      ghost var seen := plan[..index];
      var found := SelectField(fields, column, offset);
      PickMeaning(fields, column, offset, -1);
      hide Pick, PlanFor;
      if found != -1 {
        selected := selected[column := found];
      }
      plan[index] := found;
      ghost var now := plan[..index + 1];
      assert now[..index] == seen;
      PlanExtend(columns, fields, seen, now);
      index := index + 1;
    }
    assert plan[..index] == plan[..];
  }

  /** Later picks for a column name lie behind the earlier ones. */
  lemma {:induction false} OffsetCovers(columns: seq<string>, fields: seq<Field>, plan: seq<int>, column: string, i: nat)
    requires PlanFor(columns, fields, plan)
    requires i < |plan| && columns[i] == column && plan[i] >= 0
    ensures plan[i] < Offset(columns, plan, column)
  {
    hide Pick, MatchAt, PlanFor;
    var last := |plan| - 1;
    assert |plan| <= |columns| by { PlanWithin(columns, fields, plan); }
    if i < last {
      var from := Offset(columns, plan[..last], column);
      PlanPrefix(columns, fields, plan, last);
      OffsetCovers(columns, fields, plan[..last], column, i);
      PlanEntry(columns, fields, plan, last);
      assert Offset(columns, plan, column)
        == if columns[last] == column && plan[last] >= 0 then plan[last] + 1 else from;
    } else {
      assert Offset(columns, plan, column) == plan[last] + 1;
    }
  }

  lemma PlanEntry(columns: seq<string>, fields: seq<Field>, plan: seq<int>, i: nat)
    requires PlanFor(columns, fields, plan) && i < |plan|
    ensures plan[i] >= 0 ==> Offset(columns, plan[..i], columns[i]) <= plan[i]
  {
    hide Pick, Offset;
    if plan[i] >= 0 {
      PickAfter(fields, columns[i], Offset(columns, plan[..i], columns[i]));
    }
  }

  lemma PlanWithin(columns: seq<string>, fields: seq<Field>, plan: seq<int>)
    requires PlanFor(columns, fields, plan)
    ensures |plan| <= |columns|
  {}

  lemma PlanPrefix(columns: seq<string>, fields: seq<Field>, plan: seq<int>, n: nat)
    requires PlanFor(columns, fields, plan) && n <= |plan|
    ensures PlanFor(columns, fields, plan[..n])
  {
    hide Pick, Offset;
    forall k | 0 <= k < n ensures plan[..n][..k] == plan[..k] {}
  }

  lemma PickAfter(fields: seq<Field>, column: string, from: int)
    requires 0 <= from <= |fields| && Pick(fields, column, from, -1) >= 0
    ensures from <= Pick(fields, column, from, -1)
  {
    hide Pick, MatchAt;
    PickMeaning(fields, column, from, -1);
  }

  /** Every column goes to a field of its own name or nowhere, and no two columns
      go to one field. */
  lemma PlanIsInjective(columns: seq<string>, fields: seq<Field>, plan: seq<int>)
    requires PlanFor(columns, fields, plan)
    ensures forall i :: 0 <= i < |plan| ==> plan[i] == -1 || MatchAt(fields, columns[i], plan[i])
    ensures forall i, j :: 0 <= i < j < |plan| && plan[i] >= 0 ==> plan[i] != plan[j]
  {
    forall i | 0 <= i < |plan| ensures plan[i] == -1 || MatchAt(fields, columns[i], plan[i]) {
      PickMeaning(fields, columns[i], Offset(columns, plan[..i], columns[i]), -1);
    }
    forall i, j | 0 <= i < j < |plan| && plan[i] >= 0 ensures plan[i] != plan[j] {
      if columns[i] == columns[j] {
        assert PlanFor(columns, fields, plan[..j]) by {
          forall k | 0 <= k < j ensures plan[..j][..k] == plan[..k] {}
        }
        OffsetCovers(columns, fields, plan[..j], columns[i], i);
        PickMeaning(fields, columns[j], Offset(columns, plan[..j], columns[j]), -1);
      }
    }
  }

  /** A field of the i-th column's name that no earlier column of that name has been
      given or has passed. */
  predicate Free(columns: seq<string>, fields: seq<Field>, plan: seq<int>, i: nat, k: int)
    requires i < |plan| <= |columns|
  {
    && 0 <= k < |fields| && fields[k].dbName == columns[i]
    && forall j :: 0 <= j < i && columns[j] == columns[i] ==> plan[j] < k
  }

  lemma {:induction false} OffsetWitness(columns: seq<string>, plan: seq<int>, column: string) returns (j: int)
    requires |plan| <= |columns|
    ensures Offset(columns, plan, column) == 0
      || (0 <= j < |plan| && columns[j] == column && plan[j] >= 0 && Offset(columns, plan, column) == plan[j] + 1)
  {
    j := -1;
    if plan != [] {
      var last := |plan| - 1;
      if columns[last] == column && plan[last] >= 0 {
        j := last;
      } else {
        j := OffsetWitness(columns, plan[..last], column);
      }
    }
  }

  lemma FreeFromOffset(columns: seq<string>, fields: seq<Field>, plan: seq<int>, i: nat, k: int)
    requires PlanFor(columns, fields, plan) && i < |plan| && |plan| <= |columns|
    ensures Free(columns, fields, plan, i, k)
      <==> Offset(columns, plan[..i], columns[i]) <= k && MatchAt(fields, columns[i], k)
  {
    hide PlanFor;
    var seen := plan[..i];
    PlanPrefix(columns, fields, plan, i);
    if Offset(columns, seen, columns[i]) <= k {
      forall j | 0 <= j < i && columns[j] == columns[i] && plan[j] >= 0 ensures plan[j] < k {
        OffsetCovers(columns, fields, seen, columns[i], j);
      }
      OffsetNatural(columns, seen, columns[i]);
    }
    var j := OffsetWitness(columns, seen, columns[i]);
    hide Offset;
  }

  lemma OffsetNatural(columns: seq<string>, plan: seq<int>, column: string)
    requires |plan| <= |columns|
    ensures Offset(columns, plan, column) >= 0
  {
    var j := OffsetWitness(columns, plan, column);
    hide Offset;
  }

  /** Each column gets the first normal field that is free for it, failing that the last
      free one, and none exactly when none is free. */
  lemma NothingSkipped(columns: seq<string>, fields: seq<Field>, plan: seq<int>, i: nat)
    requires PlanFor(columns, fields, plan) && i < |plan| && |plan| <= |columns|
    ensures plan[i] == -1 || Free(columns, fields, plan, i, plan[i])
    ensures plan[i] == -1 <==> forall k :: !Free(columns, fields, plan, i, k)
    ensures forall k :: Free(columns, fields, plan, i, k) && fields[k].isNormal ==> fields[plan[i]].isNormal && plan[i] <= k
    ensures plan[i] >= 0 && !fields[plan[i]].isNormal ==> forall k :: k > plan[i] ==> !Free(columns, fields, plan, i, k)
  {
    PickMeaning(fields, columns[i], Offset(columns, plan[..i], columns[i]), -1);
    forall k ensures Free(columns, fields, plan, i, k)
      <==> Offset(columns, plan[..i], columns[i]) <= k && MatchAt(fields, columns[i], k)
    {
      FreeFromOffset(columns, fields, plan, i, k);
    }
    hide Offset, Free;
  }
}
