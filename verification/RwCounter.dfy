/**
 The read/write load balancer (dm/zw.go): each site has a credit; a request goes
 to the primary while its credit exceeds what the standbys have left, and all
 credits are refilled when both sides have used theirs up.
 */
module RwCounter {
  import opened Bytes

  datatype Site = AnySite | Standby | Primary

  // ---------- util.GCD and util.Sum ----------

  function Gcd(m: nat, n: nat): (g: nat)
    ensures g >= 1
    decreases n
  {
    if m == 0 || n == 0 then 1
    else
      var r := m % n;
      if r == 0 then n else Gcd(n, r)
  }

  function Sum(s: seq<int>): int {
    if s == [] then 0 else s[0] + Sum(s[1..])
  }

  lemma {:induction false} GcdDivides(m: nat, n: nat) returns (a: nat, b: nat)
    requires m > 0 && n > 0
    ensures m == a * Gcd(m, n) && n == b * Gcd(m, n)
    decreases n
  {
    var q, r := m / n, m % n;
    assert m == q * n + r;
    if r == 0 {
      a, b := q, 1;
    } else {
      var g := Gcd(n, r);
      var x, y := GcdDivides(n, r);
      a, b := q * x + y, x;
      assert q * n + r == (q * x + y) * g by { FactorOut(q, x, y, g); }
    }
  }

  /** Every common divisor divides it, so no larger one exists. */
  lemma {:induction false} GcdGreatest(m: nat, n: nat, d: nat, x: nat, y: nat) returns (c: nat)
    requires m > 0 && n > 0 && d > 0 && m == x * d && n == y * d
    ensures Gcd(m, n) == c * d
    decreases n
  {
    var q, r := m / n, m % n;
    assert m == q * n + r;
    if r == 0 {
      c := y;
    } else {
      FactorLeft(q, x, y, d);
      assert r == (x - q * y) * d;
      assert x - q * y > 0 by { Positive(x - q * y, d); }
      c := GcdGreatest(n, r, d, y, x - q * y);
    }
  }

  lemma FactorLeft(q: int, x: int, y: int, d: int)
    ensures x * d - q * (y * d) == (x - q * y) * d
  {}

  lemma Positive(x: int, d: int)
    requires d > 0 && x * d > 0
    ensures x > 0
  {}

  lemma FactorOut(q: int, x: int, y: int, g: int)
    ensures q * (x * g) + y * g == (q * x + y) * g
  {}

  // ---------- the counter as a value ----------

  datatype Counter = Counter(
    percent: nat,
    standbyCount: nat,
    increments: seq<int>,
    flag: seq<int>,
    ids: map<string, int>,
    served: map<string, int>,
    primary: nat,
    total: nat)

  function PrimaryShare(percent: nat, standbyCount: nat): int
    requires percent <= 100
  {
    percent * standbyCount / Gcd(percent * standbyCount, 100 - percent)
  }

  function StandbyShare(percent: nat, standbyCount: nat): int
    requires percent <= 100
  {
    (100 - percent) / Gcd(percent * standbyCount, 100 - percent)
  }

  /** The credits `reset` hands out: the primary's, then one for each standby. */
  function Increments(percent: nat, standbyCount: nat): (r: seq<int>)
    requires percent <= 100
    ensures |r| == standbyCount + 1
  {
    [PrimaryShare(percent, standbyCount)] + seq(standbyCount, _ => StandbyShare(percent, standbyCount))
  }

  lemma IncrementsAre(s: seq<int>, percent: nat, standbyCount: nat)
    requires percent <= 100 && |s| == standbyCount + 1 && s[0] == PrimaryShare(percent, standbyCount)
    requires forall k :: 1 <= k < |s| ==> s[k] == StandbyShare(percent, standbyCount)
    ensures s == Increments(percent, standbyCount)
  {
    hide PrimaryShare, StandbyShare;
  }

  function Reset(c: Counter, percent: nat, standbyCount: nat): Counter
    requires percent <= 100
  {
    var inc := Increments(percent, standbyCount);
    c.(percent := percent, standbyCount := standbyCount, increments := inc, flag := inc, primary := 0, total := 0)
  }

  /** Every known standby host has its own place in the flags. */
  predicate Consistent(c: Counter) {
    && c.percent <= 100
    && c.increments == Increments(c.percent, c.standbyCount)
    && |c.flag| == c.standbyCount + 1
    && |c.ids| <= c.standbyCount
    && (forall k :: k in c.ids ==> 1 <= c.ids[k] <= |c.ids|)
    && c.primary <= c.total
  }

  /** The host is known, or there is a free place for it. */
  predicate HasPlace(c: Counter, key: string) {
    key in c.ids || |c.ids| < c.standbyCount
  }

  predicate PrimaryOnly(c: Counter) { c.percent == 100 || c.standbyCount == 0 }

  /** What a request needs: a standby request, or one that may go to a standby,
      needs a place for its host. */
  predicate CanServe(c: Counter, dest: Site, key: string) {
    match dest
    case Primary => true
    case Standby => HasPlace(c, key)
    case AnySite => PrimaryOnly(c) || HasPlace(c, key)
  }

  function AddAll(a: seq<int>, b: seq<int>): (r: seq<int>)
    requires |a| == |b|
    ensures |r| == |a|
  {
    seq(|a|, i requires 0 <= i < |a| => a[i] + b[i])
  }

  /** The refill of `adjustNtrx` (dm/zw.go:163-168). */
  function Adjusted(c: Counter): Counter
    requires Consistent(c)
  {
    if c.flag[0] <= 0 && Sum(c.flag[1..]) <= 0 then c.(flag := AddAll(c.flag, c.increments)) else c
  }

  function ServePrimary(c: Counter): Counter
    requires Consistent(c)
  {
    c.(primary := c.primary + 1, total := c.total + 1, flag := c.flag[0 := c.flag[0] - 1])
  }

  function WithId(c: Counter, key: string): Counter {
    if key in c.ids then c else c.(ids := c.ids[key := |c.ids| + 1])
  }

  function ServeStandby(c: Counter, key: string): Counter
    requires Consistent(c) && HasPlace(c, key)
  {
    var d := WithId(c, key);
    var id := d.ids[key];
    d.(total := c.total + 1,
       served := c.served[key := if key in c.served then c.served[key] + 1 else 1],
       flag := c.flag[id := c.flag[id] - 1])
  }

  /** Whether an ANYSITE request goes to the primary. */
  predicate PrefersPrimary(c: Counter, key: string)
    requires Consistent(c) && CanServe(c, AnySite, key)
  {
    PrimaryOnly(c)
    || (c.flag[0] > c.flag[WithId(c, key).ids[key]] && c.flag[0] > Sum(c.flag[1..]))
  }

  /** Comparing credits registers the standby, unless the percentage decides alone. */
  function Compared(c: Counter, key: string): Counter {
    if PrimaryOnly(c) then c else WithId(c, key)
  }

  /** `count` */
  function Counted(c: Counter, dest: Site, key: string): (r: (Counter, Site))
    requires Consistent(c) && CanServe(c, dest, key)
  {
    var a := Adjusted(c);
    match dest
    case Primary => (ServePrimary(a), Primary)
    case Standby => (ServeStandby(a, key), Standby)
    case AnySite =>
      if PrefersPrimary(a, key) then (ServePrimary(Compared(a, key)), Primary)
      else (ServeStandby(a, key), Standby)
  }

  // ---------- the counter as the driver keeps it ----------

  class RWCounter {
    var ntrxPrimary: nat
    var ntrxTotal: nat
    var percent: nat
    var standbyCount: nat
    var standbyNTrxMap: map<string, int>
    var standbyIdMap: map<string, int>
    var flag: array<int>
    var increments: array<int>

    ghost function View(): Counter
      reads this, flag, increments
    {
      Counter(percent, standbyCount, increments[..], flag[..], standbyIdMap, standbyNTrxMap, ntrxPrimary, ntrxTotal)
    }

    ghost predicate Valid()
      reads this, flag, increments
    {
      flag != increments && Consistent(View())
    }

    constructor (primaryPercent: nat, standbyCount: nat)
      requires primaryPercent <= 100
      ensures Valid() && fresh(flag) && fresh(increments)
      ensures View() == Reset(Counter(0, 0, [], [], map[], map[], 0, 0), primaryPercent, standbyCount)
    {
      standbyNTrxMap, standbyIdMap := map[], map[];
      ntrxPrimary, ntrxTotal := 0, 0;
      percent, this.standbyCount := primaryPercent, standbyCount;
      var inc := Increments(primaryPercent, standbyCount);
      increments := new int[standbyCount + 1](i requires 0 <= i < |inc| => inc[i]);
      flag := new int[standbyCount + 1](i requires 0 <= i < |inc| => inc[i]);
      new;
      assert increments[..] == inc && flag[..] == inc;
    }

    /** `reset`, also called when the server reports another standby count. */
    method ResetCounter(primaryPercent: nat, standbyCount: nat)
      requires primaryPercent <= 100
      modifies this
      ensures fresh(flag) && fresh(increments) && flag != increments
      ensures View() == Reset(old(View()), primaryPercent, standbyCount)
    {
      ntrxPrimary, ntrxTotal := 0, 0;
      this.standbyCount, percent := standbyCount, primaryPercent;
      var gcd := Gcd(primaryPercent * standbyCount, 100 - primaryPercent);
      var incs := new int[standbyCount + 1](_ => 0);
      incs[0] := primaryPercent * standbyCount / gcd;
      var tmp := (100 - primaryPercent) / gcd;
      assert incs[0] == PrimaryShare(primaryPercent, standbyCount) && tmp == StandbyShare(primaryPercent, standbyCount);
      hide PrimaryShare, StandbyShare, Gcd, Increments;
      var i := 1;
      while i < incs.Length
        invariant 1 <= i <= incs.Length
        invariant incs[0] == PrimaryShare(primaryPercent, standbyCount)
        invariant forall k :: 1 <= k < i ==> incs[k] == tmp
        modifies incs
      {
        incs[i] := tmp;
        i := i + 1;
      }
      IncrementsAre(incs[..], primaryPercent, standbyCount);
      var flags := new int[standbyCount + 1](k requires 0 <= k < incs.Length reads incs => incs[k]);
      assert flags[..] == incs[..];
      increments, flag := incs, flags;
    }

    method SumStandby() returns (sum: int)
      requires Valid()
      ensures sum == Sum(flag[1..])
    {
      sum := 0;
      var i := flag.Length;
      while i > 1
        invariant 1 <= i <= flag.Length
        invariant sum == Sum(flag[i..])
      {
        i := i - 1;
        assert flag[i..][1..] == flag[i + 1..];
        sum := flag[i] + sum;
      }
    }

    method AdjustNtrx()
      requires Valid() && ntrxTotal < INT64_MAX
      modifies flag
      ensures Valid() && View() == Adjusted(old(View()))
    {
      var rest := SumStandby();
      if flag[0] <= 0 && rest <= 0 {
        ghost var before := flag[..];
        var i := 0;
        while i < flag.Length
          invariant 0 <= i <= flag.Length
          invariant forall k :: 0 <= k < i ==> flag[k] == before[k] + increments[k]
          invariant forall k :: i <= k < flag.Length ==> flag[k] == before[k]
        {
          flag[i] := flag[i] + increments[i];
          i := i + 1;
        }
        assert flag[..] == AddAll(before, increments[..]);
      }
    }

    method IncreasePrimaryNtrx()
      requires Valid()
      modifies this`ntrxPrimary, this`ntrxTotal, flag
      ensures Valid() && View() == ServePrimary(old(View()))
    {
      ntrxPrimary := ntrxPrimary + 1;
      flag[0] := flag[0] - 1;
      ntrxTotal := ntrxTotal + 1;
    }

    /** -1 when there are already as many hosts as standbys. */
    method GetStandbyId(key: string) returns (sid: int)
      requires Valid()
      modifies this`standbyIdMap
      ensures Valid()
      ensures HasPlace(old(View()), key) ==> View() == WithId(old(View()), key) && sid == standbyIdMap[key]
      ensures !HasPlace(old(View()), key) ==> View() == old(View()) && sid == -1
    {
      if key in standbyIdMap {
        return standbyIdMap[key];
      }
      sid := |standbyIdMap| + 1;
      if sid > standbyCount {
        return -1;
      }
      standbyIdMap := standbyIdMap[key := sid];
    }

    method GetStandbyFlag(key: string) returns (credit: int)
      requires Valid()
      modifies this`standbyIdMap
      ensures Valid()
      ensures HasPlace(old(View()), key) ==> View() == WithId(old(View()), key) && credit == flag[standbyIdMap[key]]
      ensures !HasPlace(old(View()), key) ==> View() == old(View()) && credit == 0
    {
      var sid := GetStandbyId(key);
      if sid > 0 && sid < flag.Length {
        return flag[sid];
      }
      return 0;
    }

    method IncreaseStandbyNtrx(key: string)
      requires Valid() && HasPlace(View(), key)
      modifies this`standbyNTrxMap, this`standbyIdMap, this`ntrxTotal, flag
      ensures Valid() && View() == ServeStandby(old(View()), key)
    {
      hide Increments, PrimaryShare, StandbyShare, Sum, Gcd;
      standbyNTrxMap := standbyNTrxMap[key := if key in standbyNTrxMap then standbyNTrxMap[key] + 1 else 1];
      var sid: int;
      if key in standbyIdMap {
        sid := standbyIdMap[key];
      } else {
        sid := |standbyIdMap| + 1;
        standbyIdMap := standbyIdMap[key := sid];
      }
      ghost var credits, inc := flag[..], increments[..];
      flag[sid] := flag[sid] - 1;
      assert flag[..] == credits[sid := credits[sid] - 1];
      assert increments[..] == inc;
      ntrxTotal := ntrxTotal + 1;
    }

    method CountPrimary() returns (site: Site)
      requires Valid() && ntrxTotal < INT64_MAX
      modifies this, flag
      ensures Valid() && flag == old(flag) && increments == old(increments)
      ensures (View(), site) == Counted(old(View()), Primary, "")
    {
      AdjustNtrx();
      IncreasePrimaryNtrx();
      site := Primary;
    }

    /** The test of the ANYSITE case; looking up the standby registers it. */
    method ChoosePrimary(key: string) returns (toPrimary: bool)
      requires Valid() && CanServe(View(), AnySite, key)
      modifies this`standbyIdMap
      ensures Valid() && View() == Compared(old(View()), key)
      ensures toPrimary == PrefersPrimary(old(View()), key)
    {
      toPrimary := percent == 100 || standbyCount == 0;
      if !toPrimary {
        var credit := GetStandbyFlag(key);
        if flag[0] > credit {
          var rest := SumStandby();
          toPrimary := flag[0] > rest;
        }
      }
    }

    method Count(dest: Site, key: string) returns (site: Site)
      requires Valid() && ntrxTotal < INT64_MAX
      requires CanServe(View(), dest, key)
      modifies this, flag
      ensures Valid() && flag == old(flag) && increments == old(increments)
      ensures (View(), site) == Counted(old(View()), dest, key)
    {
      hide Adjusted, ServePrimary, ServeStandby, Compared;
      ghost var before := View();
      AdjustNtrx();
      AdjustedKeepsHosts(before);
      match dest
      case AnySite =>
        var toPrimary := ChoosePrimary(key);
        if toPrimary {
          IncreasePrimaryNtrx();
          site := Primary;
        } else {
          ComparedStandby(Adjusted(before), key);
          IncreaseStandbyNtrx(key);
          site := Standby;
        }
      case Standby =>
        IncreaseStandbyNtrx(key);
        site := Standby;
      case Primary =>
        IncreasePrimaryNtrx();
        site := Primary;
    }
  }

  lemma AdjustedKeepsHosts(c: Counter)
    requires Consistent(c)
    ensures Consistent(Adjusted(c)) && Adjusted(c).ids == c.ids && Adjusted(c).standbyCount == c.standbyCount
  {}

  lemma ComparedStandby(c: Counter, key: string)
    requires Consistent(c) && HasPlace(c, key)
    ensures Consistent(Compared(c, key)) && HasPlace(Compared(c, key), key)
    ensures ServeStandby(Compared(c, key), key) == ServeStandby(c, key)
  {}

  /** A new standby count keeps the hosts seen so far, so the counter stays usable
      exactly when they still have places. */
  lemma ResetConsistent(c: Counter, percent: nat, standbyCount: nat)
    requires Consistent(c) && percent <= 100
    ensures Consistent(Reset(c, percent, standbyCount)) <==> |c.ids| <= standbyCount
  {}
}
