/**
 What the load balancer guarantees over whole runs: credits account for every
 request served, the primary never takes more than its share, and with one
 standby every full cycle divides exactly.
 */
module RwShare {
  import opened RwCounter

  datatype Request = Request(dest: Site, key: string)

  /** The sum of the standby credits. */
  function Rest(c: Counter): int
    requires Consistent(c)
  {
    Sum(c.flag[1..])
  }

  function P(c: Counter): int
    requires c.percent <= 100
  {
    PrimaryShare(c.percent, c.standbyCount)
  }

  /** The summed standby increments. */
  function S(c: Counter): int
    requires c.percent <= 100
  {
    c.standbyCount * StandbyShare(c.percent, c.standbyCount)
  }

  // ---------- sums ----------

  lemma {:induction false} SumUpdate(s: seq<int>, i: nat, v: int)
    requires i < |s|
    ensures Sum(s[i := v]) == Sum(s) - s[i] + v
  {
    if i > 0 {
      assert s[i := v][1..] == s[1..][i - 1 := v];
      SumUpdate(s[1..], i - 1, v);
    } else {
      assert s[0 := v][1..] == s[1..];
    }
  }

  lemma {:induction false} SumAdd(a: seq<int>, b: seq<int>)
    requires |a| == |b|
    ensures Sum(AddAll(a, b)) == Sum(a) + Sum(b)
  {
    if a != [] {
      assert AddAll(a, b)[1..] == AddAll(a[1..], b[1..]);
      SumAdd(a[1..], b[1..]);
    }
  }

  lemma {:induction false} SumConstant(n: nat, v: int)
    ensures Sum(seq(n, _ => v)) == n * v
  {
    if n > 0 {
      assert seq(n, _ => v)[1..] == seq(n - 1, _ => v);
      SumConstant(n - 1, v);
      assert n * v == v + (n - 1) * v;
    }
  }

  lemma IncrementsSum(c: Counter)
    requires Consistent(c)
    ensures Sum(c.increments[1..]) == S(c) && c.increments[0] == P(c)
  {
    SumConstant(c.standbyCount, StandbyShare(c.percent, c.standbyCount));
    assert c.increments[1..] == seq(c.standbyCount, _ => StandbyShare(c.percent, c.standbyCount));
  }

  // ---------- one request ----------

  predicate SameSetup(c: Counter, d: Counter) {
    c.percent == d.percent && c.standbyCount == d.standbyCount
  }

  /** How a request changes the two credits and the counts. */
  lemma AdjustEffect(c: Counter)
    requires Consistent(c)
    ensures Consistent(Adjusted(c))
    ensures var a := Adjusted(c);
      if c.flag[0] <= 0 && Rest(c) <= 0 then a.flag[0] == c.flag[0] + P(c) && Rest(a) == Rest(c) + S(c)
      else a == c
    ensures SameSetup(Adjusted(c), c) && Adjusted(c).primary == c.primary && Adjusted(c).total == c.total
  {
    if c.flag[0] <= 0 && Rest(c) <= 0 {
      IncrementsSum(c);
      SumAdd(c.flag[1..], c.increments[1..]);
      assert AddAll(c.flag, c.increments)[1..] == AddAll(c.flag[1..], c.increments[1..]);
    }
  }

  lemma PrimaryEffect(c: Counter)
    requires Consistent(c)
    ensures var d := ServePrimary(c);
      && Consistent(d) && d.flag[0] == c.flag[0] - 1 && Rest(d) == Rest(c)
      && d.primary == c.primary + 1 && d.total == c.total + 1 && SameSetup(d, c)
  {
    assert c.flag[0 := c.flag[0] - 1][1..] == c.flag[1..];
  }

  lemma StandbyEffect(c: Counter, key: string)
    requires Consistent(c) && HasPlace(c, key)
    ensures var d := ServeStandby(c, key);
      && Consistent(d) && d.flag[0] == c.flag[0] && Rest(d) == Rest(c) - 1
      && d.primary == c.primary && d.total == c.total + 1 && SameSetup(d, c)
  {
    var id := WithId(c, key).ids[key];
    SumUpdate(c.flag[1..], id - 1, c.flag[id] - 1);
    assert c.flag[id := c.flag[id] - 1][1..] == c.flag[1..][id - 1 := c.flag[id] - 1];
  }

  // ---------- accounting over every run ----------

  /** After `refills` refills, what is left of each credit plus what was served
      with it is exactly what was handed out. */
  ghost predicate Accounted(c: Counter, refills: int) {
    && Consistent(c)
    && refills >= 0
    && c.flag[0] + c.primary == P(c) * (refills + 1)
    && Rest(c) + (c.total - c.primary) == S(c) * (refills + 1)
  }

  lemma ResetAccounted(percent: nat, standbyCount: nat)
    requires percent <= 100
    ensures Accounted(Reset(Counter(0, 0, [], [], map[], map[], 0, 0), percent, standbyCount), 0)
  {
    var c := Reset(Counter(0, 0, [], [], map[], map[], 0, 0), percent, standbyCount);
    IncrementsSum(c);
    assert P(c) * 1 == P(c) && S(c) * 1 == S(c);
  }

  lemma NextAccounted(c: Counter, refills: int, r: Request) returns (refills': int)
    requires Accounted(c, refills) && CanServe(c, r.dest, r.key)
    ensures refills <= refills' <= refills + 1
    ensures refills' == refills + 1 <==> c.flag[0] <= 0 && Rest(c) <= 0
    ensures Accounted(Counted(c, r.dest, r.key).0, refills')
    ensures Counted(c, r.dest, r.key).0.percent == c.percent
    ensures Counted(c, r.dest, r.key).0.standbyCount == c.standbyCount
  {
    hide Adjusted, ServePrimary, ServeStandby, Compared, PrefersPrimary, Rest, P, S;
    var a := Adjusted(c);
    AdjustEffect(c);
    AdjustedKeepsHosts(c);
    refills' := if c.flag[0] <= 0 && Rest(c) <= 0 then refills + 1 else refills;
    MoreRefills(P(c), refills);
    MoreRefills(S(c), refills);
    SharesFixed(a, c);
    assert Accounted(a, refills');
    match r.dest {
      case Primary =>
        PrimaryEffect(a);
        SharesFixed(ServePrimary(a), a);
      case Standby =>
        StandbyEffect(a, r.key);
        SharesFixed(ServeStandby(a, r.key), a);
      case AnySite =>
        if PrefersPrimary(a, r.key) {
          ComparedEffect(a, r.key);
          PrimaryEffect(Compared(a, r.key));
          SharesFixed(ServePrimary(Compared(a, r.key)), a);
        } else {
          NotPreferred(a, r.key);
          StandbyEffect(a, r.key);
          SharesFixed(ServeStandby(a, r.key), a);
        }
    }
  }

  lemma SharesFixed(c: Counter, d: Counter)
    requires SameSetup(c, d) && c.percent <= 100
    ensures P(c) == P(d) && S(c) == S(d)
  {}

  lemma ComparedEffect(c: Counter, key: string)
    requires Consistent(c) && CanServe(c, AnySite, key)
    ensures var d := Compared(c, key);
      && Consistent(d) && d.flag == c.flag && Rest(d) == Rest(c)
      && d.primary == c.primary && d.total == c.total && SameSetup(d, c)
  {}

  lemma NotPreferred(c: Counter, key: string)
    requires Consistent(c) && CanServe(c, AnySite, key) && !PrefersPrimary(c, key)
    ensures HasPlace(c, key)
  {}

  lemma MoreRefills(x: int, refills: int)
    ensures x * (refills + 1 + 1) == x * (refills + 1) + x
  {}

  // ---------- runs ----------

  /** The hosts of a run all find places. */
  predicate Serves(c: Counter, rs: seq<Request>)
    decreases |rs|
  {
    Consistent(c) &&
    (rs == [] || (CanServe(c, rs[0].dest, rs[0].key) && Serves(Counted(c, rs[0].dest, rs[0].key).0, rs[1..])))
  }

  function Served(c: Counter, rs: seq<Request>): Counter
    requires Serves(c, rs)
    decreases |rs|
  {
    if rs == [] then c else Served(Counted(c, rs[0].dest, rs[0].key).0, rs[1..])
  }

  /** In every run, whatever sites the requests ask for, credits account for all of them. */
  lemma {:induction false} RunAccounted(c: Counter, refills: int, rs: seq<Request>) returns (refills': int)
    requires Accounted(c, refills) && Serves(c, rs)
    ensures Accounted(Served(c, rs), refills') && refills' >= refills
    ensures Served(c, rs).percent == c.percent && Served(c, rs).standbyCount == c.standbyCount
    ensures Served(c, rs).total == c.total + |rs|
    decreases |rs|
  {
    if rs == [] {
      refills' := refills;
    } else {
      var d := Counted(c, rs[0].dest, rs[0].key).0;
      var mid := NextAccounted(c, refills, rs[0]);
      assert d.total == c.total + 1;
      refills' := RunAccounted(d, mid, rs[1..]);
    }
  }

  function Fresh(percent: nat, standbyCount: nat): Counter
    requires percent <= 100
  {
    Reset(Counter(0, 0, [], [], map[], map[], 0, 0), percent, standbyCount)
  }

  // ---------- each standby's own account ----------

  /** Transactions a host has been given since it was first seen. */
  function ServedBy(c: Counter, key: string): int {
    if key in c.served then c.served[key] else 0
  }

  /** Hosts have places of their own, and only hosts with a place are served. */
  ghost predicate OwnPlaces(c: Counter) {
    && (forall j, k :: j in c.ids && k in c.ids && j != k ==> c.ids[j] != c.ids[k])
    && (forall k :: k in c.served ==> k in c.ids)
  }

  /** The credit left at a host's place and what the host served make up `share`. */
  ghost predicate HostShares(c: Counter, share: int)
    requires Consistent(c)
  {
    forall k :: k in c.ids ==> c.flag[c.ids[k]] + ServedBy(c, k) == share
  }

  /** A place that no host has taken keeps all of it. */
  ghost predicate FreeShares(c: Counter, share: int)
    requires Consistent(c)
  {
    forall p :: 1 <= p <= c.standbyCount && p !in c.ids.Values ==> c.flag[p] == share
  }

  /** Every standby's own account after some refills. */
  ghost predicate HostsAccounted(c: Counter, refills: int) {
    && Consistent(c) && refills >= 0 && OwnPlaces(c)
    && HostShares(c, StandbyShare(c.percent, c.standbyCount) * (refills + 1))
    && FreeShares(c, StandbyShare(c.percent, c.standbyCount) * (refills + 1))
  }

  lemma FreshHosts(percent: nat, standbyCount: nat)
    requires percent <= 100
    ensures HostsAccounted(Fresh(percent, standbyCount), 0)
  {
    hide StandbyShare, PrimaryShare;
    assert StandbyShare(percent, standbyCount) * 1 == StandbyShare(percent, standbyCount);
  }

  lemma AdjustedHosts(c: Counter, refills: int)
    requires HostsAccounted(c, refills)
    ensures HostsAccounted(Adjusted(c), if c.flag[0] <= 0 && Rest(c) <= 0 then refills + 1 else refills)
  {
    hide StandbyShare, Adjusted, Rest, HostShares, FreeShares, Consistent, OwnPlaces;
    AdjustedKeepsHosts(c);
    EachRefilled(c);
    var share := StandbyShare(c.percent, c.standbyCount);
    MoreRefills(share, refills);
    SharesRefilled(c, Adjusted(c), share * (refills + 1), if c.flag[0] <= 0 && Rest(c) <= 0 then share else 0);
    OwnPlacesKept(c, Adjusted(c));
  }

  lemma OwnPlacesKept(c: Counter, a: Counter)
    requires OwnPlaces(c) && a.ids == c.ids && a.served == c.served
    ensures OwnPlaces(a)
  {}

  lemma SharesRefilled(c: Counter, a: Counter, share: int, up: int)
    requires Consistent(c) && Consistent(a) && a.ids == c.ids && a.served == c.served && a.standbyCount == c.standbyCount
    requires forall p :: 1 <= p <= c.standbyCount ==> a.flag[p] == c.flag[p] + up
    requires HostShares(c, share) && FreeShares(c, share)
    ensures HostShares(a, share + up) && FreeShares(a, share + up)
  {
    hide Increments;
  }

  lemma EachRefilled(c: Counter)
    requires Consistent(c)
    ensures var a, up := Adjusted(c), if c.flag[0] <= 0 && Rest(c) <= 0 then StandbyShare(c.percent, c.standbyCount) else 0;
      && a.ids == c.ids && a.served == c.served && a.percent == c.percent && a.standbyCount == c.standbyCount
      && |a.flag| == |c.flag| && forall p :: 1 <= p <= c.standbyCount ==> a.flag[p] == c.flag[p] + up
  {
    hide StandbyShare, PrimaryShare, Sum;
  }

  lemma PrimaryHosts(c: Counter, refills: int)
    requires HostsAccounted(c, refills)
    ensures HostsAccounted(ServePrimary(c), refills)
  {
    hide StandbyShare, PrimaryShare, Increments;
  }

  /** A new host takes the first place that is free. */
  lemma NewHost(c: Counter, refills: int, key: string)
    requires HostsAccounted(c, refills) && HasPlace(c, key)
    ensures HostsAccounted(WithId(c, key), refills) && key in WithId(c, key).ids
  {
    if key !in c.ids {
      PlaceIsFree(c, key);
      NewHostShares(c, key, StandbyShare(c.percent, c.standbyCount) * (refills + 1));
      hide StandbyShare, Consistent, OwnPlaces, HostShares, FreeShares;
    }
  }

  lemma NewHostShares(c: Counter, key: string, share: int)
    requires Consistent(c) && Consistent(WithId(c, key)) && OwnPlaces(c) && HasPlace(c, key) && key !in c.ids
    requires |c.ids| + 1 !in c.ids.Values && 1 <= |c.ids| + 1 <= c.standbyCount
    requires HostShares(c, share) && FreeShares(c, share)
    ensures HostShares(WithId(c, key), share) && FreeShares(WithId(c, key), share)
  {
    var d := WithId(c, key);
    PlacesInFlags(d);
    hide Consistent, WithId;
    forall k | k in d.ids ensures d.flag[d.ids[k]] + ServedBy(d, k) == share {
      NewHostShare(c, key, share, k);
    }
    forall p | 1 <= p <= d.standbyCount && p !in d.ids.Values ensures d.flag[p] == share {
      NewHostFree(c, key, share, p);
    }
  }

  lemma PlacesInFlags(c: Counter)
    requires Consistent(c)
    ensures |c.flag| == c.standbyCount + 1 && forall k :: k in c.ids ==> 1 <= c.ids[k] <= c.standbyCount
  {}

  lemma NewHostFree(c: Counter, key: string, share: int, p: int)
    requires Consistent(c) && Consistent(WithId(c, key)) && key !in c.ids && FreeShares(c, share)
    requires 1 <= p <= WithId(c, key).standbyCount && p !in WithId(c, key).ids.Values
    ensures WithId(c, key).flag[p] == share
  {
    assert p !in c.ids.Values by {
      forall k | k in c.ids ensures c.ids[k] != p {
        assert WithId(c, key).ids[k] in WithId(c, key).ids.Values;
      }
    }
  }

  lemma NewHostShare(c: Counter, key: string, share: int, k: string)
    requires Consistent(c) && Consistent(WithId(c, key)) && OwnPlaces(c) && HasPlace(c, key) && key !in c.ids
    requires |c.ids| + 1 !in c.ids.Values && 1 <= |c.ids| + 1 <= c.standbyCount
    requires HostShares(c, share) && FreeShares(c, share)
    requires k in WithId(c, key).ids
    ensures WithId(c, key).flag[WithId(c, key).ids[k]] + ServedBy(WithId(c, key), k) == share
  {
    if k == key {
      assert c.flag[|c.ids| + 1] == share && k !in c.served;
    }
  }

  lemma PlaceIsFree(c: Counter, key: string)
    requires Consistent(c) && OwnPlaces(c) && HasPlace(c, key) && key !in c.ids
    ensures |c.ids| + 1 !in c.ids.Values && 1 <= |c.ids| + 1 <= c.standbyCount
    ensures Consistent(WithId(c, key)) && OwnPlaces(WithId(c, key))
  {
    hide Increments;
  }

  /** One transaction charged to a host that has its place. */
  lemma ChargeHost(c: Counter, refills: int, key: string, d: Counter)
    requires HostsAccounted(c, refills) && key in c.ids
    requires d == c.(total := c.total + 1, served := c.served[key := ServedBy(c, key) + 1],
                     flag := c.flag[c.ids[key] := c.flag[c.ids[key]] - 1])
    ensures HostsAccounted(d, refills)
  {
    hide StandbyShare, PrimaryShare, Increments;
    var share := StandbyShare(c.percent, c.standbyCount) * (refills + 1);
    assert Consistent(d);
    forall k | k in d.ids ensures d.flag[d.ids[k]] + ServedBy(d, k) == share {
      assert c.flag[c.ids[k]] + ServedBy(c, k) == share;
      if k != key { assert c.ids[k] != c.ids[key]; }
    }
    assert c.ids[key] in c.ids.Values;
    forall p | 1 <= p <= d.standbyCount && p !in d.ids.Values ensures d.flag[p] == share {
      assert c.flag[p] == share;
    }
  }

  lemma StandbyIs(c: Counter, key: string)
    requires Consistent(c) && HasPlace(c, key)
    ensures var d := WithId(c, key);
      && key in d.ids && 0 <= d.ids[key] < |d.flag|
      && ServeStandby(c, key) == d.(total := d.total + 1, served := d.served[key := ServedBy(d, key) + 1],
                                    flag := d.flag[d.ids[key] := d.flag[d.ids[key]] - 1])
  {
    hide Increments;
  }

  lemma StandbyHosts(c: Counter, refills: int, key: string)
    requires HostsAccounted(c, refills) && HasPlace(c, key)
    ensures HostsAccounted(ServeStandby(c, key), refills)
  {
    HostsConsistent(c, refills);
    StandbyIs(c, key);
    hide HostsAccounted, Consistent;
    NewHost(c, refills, key);
    ChargeHost(WithId(c, key), refills, key, ServeStandby(c, key));
  }

  lemma NextHosts(c: Counter, refills: int, r: Request)
    requires HostsAccounted(c, refills) && CanServe(c, r.dest, r.key)
    ensures HostsAccounted(Counted(c, r.dest, r.key).0, if c.flag[0] <= 0 && Rest(c) <= 0 then refills + 1 else refills)
  {
    hide Adjusted, ServePrimary, ServeStandby, HostsAccounted, WithId, Rest;
    HostsConsistent(c, refills);
    AdjustedKeepsHosts(c);
    AdjustedPercent(c);
    var a := Adjusted(c);
    var n := if c.flag[0] <= 0 && Rest(c) <= 0 then refills + 1 else refills;
    AdjustedHosts(c, refills);
    match r.dest {
      case Primary => PrimaryHosts(a, n);
      case Standby => StandbyHosts(a, n, r.key);
      case AnySite =>
        if PrefersPrimary(a, r.key) {
          if !PrimaryOnly(a) { NewHost(a, n, r.key); }
          PrimaryHosts(Compared(a, r.key), n);
        } else {
          StandbyHosts(a, n, r.key);
        }
    }
  }

  lemma AdjustedPercent(c: Counter)
    requires Consistent(c)
    ensures Adjusted(c).percent == c.percent
  {}

  lemma HostsConsistent(c: Counter, refills: int)
    requires HostsAccounted(c, refills)
    ensures Consistent(c)
  {}

  /** In every run each standby is charged for what it served itself, and the same
      number of refills accounts for the primary and for every host. */
  lemma {:induction false} RunHosts(c: Counter, refills: int, rs: seq<Request>) returns (refills': int)
    requires Accounted(c, refills) && HostsAccounted(c, refills) && Serves(c, rs)
    ensures Accounted(Served(c, rs), refills') && HostsAccounted(Served(c, rs), refills') && refills' >= refills
    decreases |rs|
  {
    hide Accounted, HostsAccounted, Counted;
    if rs == [] {
      refills' := refills;
    } else {
      var mid := NextAccounted(c, refills, rs[0]);
      NextHosts(c, refills, rs[0]);
      refills' := RunHosts(Counted(c, rs[0].dest, rs[0].key).0, mid, rs[1..]);
    }
  }

  /** From a new counter: each host has a place of its own, and what is left there
      and what the host served make up one share for every time credit was handed
      out; a place that no host took still holds all of it. */
  lemma FreshRunHosts(percent: nat, standbyCount: nat, rs: seq<Request>) returns (refills: int)
    requires percent <= 100 && Serves(Fresh(percent, standbyCount), rs)
    ensures var d, share := Served(Fresh(percent, standbyCount), rs), StandbyShare(percent, standbyCount) * (refills + 1);
      && refills >= 0 && |d.flag| == standbyCount + 1 && d.total == |rs|
      && d.flag[0] + d.primary == PrimaryShare(percent, standbyCount) * (refills + 1)
      && (forall k :: k in d.ids ==> 1 <= d.ids[k] <= standbyCount)
      && (forall j, k :: j in d.ids && k in d.ids && j != k ==> d.ids[j] != d.ids[k])
      && (forall k :: k in d.ids ==> d.flag[d.ids[k]] + (if k in d.served then d.served[k] else 0) == share)
      && (forall p :: 1 <= p <= standbyCount && p !in d.ids.Values ==> d.flag[p] == share)
  {
    var c := Fresh(percent, standbyCount);
    FreshFacts(percent, standbyCount);
    ResetAccounted(percent, standbyCount);
    FreshHosts(percent, standbyCount);
    hide StandbyShare, PrimaryShare, Fresh, Increments, Sum, Served, Serves;
    refills := RunHosts(c, 0, rs);
    RunSetup(c, rs);
  }

  lemma {:induction false} RunSetup(c: Counter, rs: seq<Request>)
    requires Serves(c, rs)
    ensures Served(c, rs).percent == c.percent && Served(c, rs).standbyCount == c.standbyCount
    ensures Served(c, rs).total == c.total + |rs|
    decreases |rs|
  {
    if rs != [] {
      RunSetup(Counted(c, rs[0].dest, rs[0].key).0, rs[1..]);
    }
  }

  /** The place of a host, or the one it will get. */
  function PlaceOf(c: Counter, key: string): int {
    if key in c.ids then c.ids[key] else |c.ids| + 1
  }

  /** Where a request goes: to the site it asks for; and any site means the primary
      exactly when there is no standby share at all, or when its credit, after a
      refill if all credit was used up, is more than the host's and more than the
      standbys' together. */
  lemma SiteChosen(c: Counter, dest: Site, key: string)
    requires Consistent(c) && CanServe(c, dest, key)
    ensures dest != AnySite ==> Counted(c, dest, key).1 == dest
    ensures dest == AnySite && (c.percent == 100 || c.standbyCount == 0) ==> Counted(c, dest, key).1 == Primary
    ensures dest == AnySite && c.percent < 100 && c.standbyCount > 0 ==>
      var refill := if c.flag[0] <= 0 && Sum(c.flag[1..]) <= 0 then 1 else 0;
      var primary := c.flag[0] + refill * PrimaryShare(c.percent, c.standbyCount);
      && PlaceOf(c, key) < |c.flag|
      && (Counted(c, dest, key).1 == Primary <==>
            && primary > c.flag[PlaceOf(c, key)] + refill * StandbyShare(c.percent, c.standbyCount)
            && primary > Sum(c.flag[1..]) + refill * (c.standbyCount * StandbyShare(c.percent, c.standbyCount)))
  {
    hide PrimaryShare, StandbyShare;
    AdjustEffect(c);
    assert forall p :: 1 <= p <= c.standbyCount ==> c.increments[p] == StandbyShare(c.percent, c.standbyCount);
    hide Sum;
  }

  // ---------- ANYSITE runs ----------

  predicate AnySiteRun(rs: seq<Request>) {
    forall i :: 0 <= i < |rs| ==> rs[i].dest == AnySite
  }

  /** The credits in range: the primary's between zero and its share, the standbys'
      together never above theirs. */
  ghost predicate InRange(c: Counter) {
    && Consistent(c) && c.standbyCount >= 1
    && 0 <= c.flag[0] <= P(c)
    && Rest(c) <= S(c)
    && (c.percent == 100 ==> Rest(c) == 0)
    && (c.percent == 0 ==> Rest(c) >= 0)
  }

  lemma Shares(c: Counter)
    requires c.percent <= 100 && c.standbyCount >= 1
    ensures P(c) >= 0 && S(c) >= 0
    ensures c.percent > 0 <==> P(c) > 0
    ensures c.percent < 100 <==> S(c) > 0
    ensures P(c) * 100 == c.percent * (P(c) + S(c))
  {
    var m, n := c.percent * c.standbyCount, 100 - c.percent;
    var g := Gcd(m, n);
    if m == 0 {
      assert c.percent == 0;
      assert P(c) == 0;
      assert S(c) == c.standbyCount * 100;
    } else if n == 0 {
      assert S(c) == c.standbyCount * 0 == 0;
      assert P(c) == m == 100 * c.standbyCount;
    } else {
      var a, b := GcdDivides(m, n);
      DivExact(a, g, m);
      DivExact(b, g, n);
      assert P(c) == a && S(c) == c.standbyCount * b;
      assert a > 0 && b > 0;
      ShareRatio(a, b, g, c.percent, c.standbyCount);
    }
  }

  /** The shares are in lowest terms: only 1 divides both. */
  lemma LowestTerms(percent: nat, standbyCount: nat, k: nat, x: nat, y: nat)
    requires 0 < percent < 100 && standbyCount > 0 && k > 0
    requires PrimaryShare(percent, standbyCount) == x * k && StandbyShare(percent, standbyCount) == y * k
    ensures k == 1
  {
    var m, n := percent * standbyCount, 100 - percent;
    assert m > 0;
    var a, b := GcdDivides(m, n);
    var g := Gcd(m, n);
    DivExact(a, g, m);
    DivExact(b, g, n);
    hide Gcd, PrimaryShare, StandbyShare;
    assert m == x * (k * g) && n == y * (k * g) by { Product3(x, k, g); Product3(y, k, g); }
    var c := GcdGreatest(m, n, k * g, x, y);
    OnlyOne(c, k, g);
  }

  lemma Product3(x: int, k: int, g: int)
    ensures (x * k) * g == x * (k * g)
  {}

  lemma OnlyOne(c: nat, k: nat, g: nat)
    requires g >= 1 && k >= 1 && g == c * (k * g)
    ensures k == 1
  {
    Product3(c, k, g);
    CancelFactor(g, 1, c * k);
    if k >= 2 {
      assert c >= 1;
      assert c * k >= k;
    }
  }

  lemma DivExact(a: int, g: nat, m: int)
    requires g >= 1 && m == a * g && m > 0
    ensures m / g == a && a > 0
  {
    var q, r := m / g, m % g;
    Multiple(a, g);
    Multiple(a - q, g);
    Subtract(a, q, g);
  }

  lemma Multiple(x: int, g: nat)
    requires g >= 1
    ensures x >= 1 ==> x * g >= g
    ensures x <= -1 ==> x * g <= 0 - g
    ensures x == 0 ==> x * g == 0
  {
    if x >= 1 {
      assert (x - 1) * g >= 0;
    } else if x <= -1 {
      assert (-1 - x) * g >= 0;
    }
  }

  lemma Subtract(a: int, q: int, g: int)
    ensures (a - q) * g == a * g - q * g
  {}

  lemma ShareRatio(a: int, b: int, g: int, percent: int, standbys: int)
    requires g >= 1 && percent * standbys == a * g && 100 - percent == b * g
    ensures a * 100 == percent * (a + standbys * b)
  {
    assert g * (a * 100) == (a * g) * 100;
    assert (a * g) * 100 == (percent * standbys) * 100;
    assert g * (percent * (a + standbys * b)) == percent * (a * g) + percent * standbys * (b * g) by {
      assert g * (percent * (a + standbys * b)) == percent * (g * (a + standbys * b));
      assert g * (a + standbys * b) == a * g + standbys * (b * g);
    }
    assert percent * (a * g) + percent * standbys * (b * g)
        == percent * (percent * standbys) + percent * standbys * (100 - percent);
    assert percent * (percent * standbys) + percent * standbys * (100 - percent) == (percent * standbys) * 100;
    CancelFactor(g, a * 100, percent * (a + standbys * b));
  }

  lemma CancelFactor(g: int, x: int, y: int)
    requires g >= 1 && g * x == g * y
    ensures x == y
  {}

  lemma RangeStep(c: Counter, key: string)
    requires InRange(c) && CanServe(c, AnySite, key)
    ensures InRange(Counted(c, AnySite, key).0)
  {
    var a := Adjusted(c);
    AdjustEffect(c);
    AdjustedKeepsHosts(c);
    Shares(c);
    SharesFixed(a, c);
    if PrefersPrimary(a, key) {
      ComparedEffect(a, key);
      PrimaryEffect(Compared(a, key));
      SharesFixed(ServePrimary(Compared(a, key)), c);
      assert a.flag[0] > 0;
    } else {
      StandbyEffect(a, key);
      SharesFixed(ServeStandby(a, key), c);
    }
  }

  lemma {:induction false} RangeRun(c: Counter, rs: seq<Request>)
    requires InRange(c) && Serves(c, rs) && AnySiteRun(rs)
    ensures InRange(Served(c, rs))
    decreases |rs|
  {
    if rs != [] {
      hide InRange;
      RangeStep(c, rs[0].key);
      RangeRun(Counted(c, AnySite, rs[0].key).0, rs[1..]);
    }
  }

  lemma FreshInRange(percent: nat, standbyCount: nat)
    requires percent <= 100 && standbyCount >= 1
    ensures InRange(Fresh(percent, standbyCount))
  {
    var c := Fresh(percent, standbyCount);
    IncrementsSum(c);
    Shares(c);
  }

  /** The share bound: in every ANYSITE run the primary has served at most its part
      of all requests so far and one standby refill, p / (p + s) of it. */
  lemma ShareBound(percent: nat, standbyCount: nat, rs: seq<Request>)
    requires percent <= 100 && standbyCount >= 1
    requires Serves(Fresh(percent, standbyCount), rs) && AnySiteRun(rs)
    ensures var d := Served(Fresh(percent, standbyCount), rs);
      && Consistent(d) && |d.flag| >= 1
      && d.total == |rs|
      && 0 <= d.flag[0] <= P(d)
      && d.primary * (P(d) + S(d)) <= P(d) * (d.total + S(d))
      && d.primary * 100 <= percent * (d.total + S(d))
  {
    hide *;
    var c := Fresh(percent, standbyCount);
    FreshFacts(percent, standbyCount);
    ResetAccounted(percent, standbyCount);
    FreshInRange(percent, standbyCount);
    var refills := RunAccounted(c, 0, rs);
    RangeRun(c, rs);
    var d := Served(c, rs);
    RangeFacts(d);
    AccountedFacts(d, refills);
    Shares(d);
    BoundCore(P(d), S(d), d.flag[0], Rest(d), d.primary, d.total, refills + 1);
    PercentCore(P(d), S(d), d.primary, d.total, percent);
  }

  lemma FreshFacts(percent: nat, standbyCount: nat)
    requires percent <= 100
    ensures var c := Fresh(percent, standbyCount);
      && c == Reset(Counter(0, 0, [], [], map[], map[], 0, 0), percent, standbyCount)
      && c.total == 0 && c.percent == percent && c.standbyCount == standbyCount && Consistent(c)
  {}

  lemma RangeFacts(c: Counter)
    requires InRange(c)
    ensures Consistent(c) && |c.flag| >= 1 && c.percent <= 100 && c.standbyCount >= 1
    ensures 0 <= c.flag[0] <= P(c) && Rest(c) <= S(c)
  {}

  lemma AccountedFacts(c: Counter, refills: int)
    requires Accounted(c, refills)
    ensures Consistent(c) && |c.flag| >= 1 && c.percent <= 100
    ensures c.flag[0] + c.primary == P(c) * (refills + 1)
    ensures Rest(c) + (c.total - c.primary) == S(c) * (refills + 1)
  {}

  lemma BoundCore(p: int, s: int, credit: int, rest: int, primary: int, total: int, n: int)
    requires p >= 0 && s >= 0 && 0 <= credit && rest <= s
    requires credit + primary == p * n && rest + (total - primary) == s * n
    ensures primary * (p + s) <= p * (total + s)
  {
    var standby := total - primary;
    // primary * s <= p * (standby + s), both sides measured against p * s * n
    assert primary * s == (p * n) * s - credit * s by { Expand(p * n, credit, s); }
    assert p * standby == p * (s * n) - p * rest by { Expand(s * n, rest, p); }
    assert (p * n) * s == p * (s * n);
    assert p * rest <= p * s;
    assert credit * s >= 0;
    assert primary * (p + s) == primary * p + primary * s;
    assert p * (total + s) == p * primary + p * standby + p * s by { Expand3(p, primary, standby, s); }
  }

  lemma Expand(x: int, y: int, k: int)
    ensures (x - y) * k == x * k - y * k && k * (x - y) == k * x - k * y
  {}

  lemma Expand3(p: int, x: int, y: int, s: int)
    ensures p * (x + y + s) == p * x + p * y + p * s
  {}

  lemma PercentCore(p: int, s: int, primary: int, total: int, percent: int)
    requires p >= 0 && s >= 0 && p + s > 0 && percent >= 0
    requires p * 100 == percent * (p + s)
    requires primary * (p + s) <= p * (total + s)
    ensures primary * 100 <= percent * (total + s)
  {
    var w, x, y := p + s, primary * 100, percent * (total + s);
    assert w * x == (primary * w) * 100;
    assert (primary * w) * 100 <= (p * (total + s)) * 100;
    assert (p * (total + s)) * 100 == (p * 100) * (total + s);
    assert (percent * w) * (total + s) == w * y;
    CancelLess(w, x, y);
  }

  lemma CancelLess(w: int, x: int, y: int)
    requires w > 0 && w * x <= w * y
    ensures x <= y
  {}

  // ---------- one standby ----------

  /** With one standby its credit never goes below zero either. */
  ghost predicate Pair(c: Counter) {
    InRange(c) && c.standbyCount == 1 && c.flag[1] >= 0
  }

  lemma OneStandby(c: Counter)
    requires Consistent(c) && c.standbyCount == 1
    ensures Rest(c) == c.flag[1]
    ensures forall k :: k in c.ids ==> c.ids[k] == 1
    ensures forall key :: HasPlace(c, key) ==> WithId(c, key).ids[key] == 1
  {
    assert c.flag[1..] == [c.flag[1]];
    assert [c.flag[1]][1..] == [];
    assert Sum([c.flag[1]]) == c.flag[1] + Sum([]);
  }

  lemma PairStep(c: Counter, key: string)
    requires Pair(c) && CanServe(c, AnySite, key)
    ensures Pair(Counted(c, AnySite, key).0)
  {
    var a := Adjusted(c);
    AdjustEffect(c);
    AdjustedKeepsHosts(c);
    RangeStep(c, key);
    Shares(c);
    OneStandby(c);
    OneStandby(a);
    SharesFixed(a, c);
    var d := Counted(c, AnySite, key).0;
    if PrefersPrimary(a, key) {
      ComparedEffect(a, key);
      PrimaryEffect(Compared(a, key));
    } else {
      StandbyEffect(a, key);
    }
    OneStandby(d);
  }

  lemma {:induction false} PairRun(c: Counter, rs: seq<Request>)
    requires Pair(c) && Serves(c, rs) && AnySiteRun(rs)
    ensures Pair(Served(c, rs))
    decreases |rs|
  {
    if rs != [] {
      hide Pair;
      PairStep(c, rs[0].key);
      PairRun(Counted(c, AnySite, rs[0].key).0, rs[1..]);
    }
  }

  /** With one standby, whenever full cycles of p + s requests are complete, the
      primary has served exactly p in each of them. */
  lemma ExactCycles(percent: nat, rs: seq<Request>, cycles: nat)
    requires percent <= 100
    requires Serves(Fresh(percent, 1), rs) && AnySiteRun(rs)
    requires |rs| == cycles * (P(Fresh(percent, 1)) + S(Fresh(percent, 1)))
    ensures Served(Fresh(percent, 1), rs).primary == cycles * P(Fresh(percent, 1))
  {
    hide *;
    var c := Fresh(percent, 1);
    FreshFacts(percent, 1);
    ResetAccounted(percent, 1);
    FreshPair(percent);
    var refills := RunAccounted(c, 0, rs);
    PairRun(c, rs);
    var d := Served(c, rs);
    PairFacts(d);
    AccountedFacts(d, refills);
    OneStandby(d);
    Shares(c);
    SameSetupIs(d, c);
    SharesFixed(d, c);
    CycleCore(P(c), S(c), d.flag[0], d.flag[1], d.primary, d.total, refills + 1, cycles);
  }

  lemma FreshPair(percent: nat)
    requires percent <= 100
    ensures Pair(Fresh(percent, 1))
  {
    FreshInRange(percent, 1);
    Shares(Fresh(percent, 1));
    OneStandby(Fresh(percent, 1));
  }

  lemma PairFacts(c: Counter)
    requires Pair(c)
    ensures Consistent(c) && |c.flag| >= 2 && c.percent <= 100 && c.standbyCount == 1
    ensures 0 <= c.flag[0] <= P(c) && 0 <= c.flag[1] && Rest(c) <= S(c)
  {}

  lemma SameSetupIs(c: Counter, d: Counter)
    requires c.percent == d.percent && c.standbyCount == d.standbyCount
    ensures SameSetup(c, d)
  {}

  lemma CycleCore(p: int, s: int, credit: int, rest: int, primary: int, total: int, n: int, cycles: int)
    requires p >= 0 && s >= 0 && p + s > 0
    requires 0 <= credit <= p && 0 <= rest <= s
    requires credit + primary == p * n && rest + (total - primary) == s * n
    requires total == cycles * (p + s)
    ensures primary == cycles * p
  {
    var k := n - cycles;
    CycleAlgebra(p, s, n, cycles, k);
    Multiple(k, p + s);
    Multiple(k - 1, p + s);
    Subtract(k, 1, p + s);
    assert k == 0 || k == 1;
    assert k == 1 ==> k * (p + s) == p + s && p * k == p;
  }

  lemma CycleAlgebra(p: int, s: int, n: int, cycles: int, k: int)
    requires n == cycles + k
    ensures p * n + s * n - cycles * (p + s) == k * (p + s)
    ensures p * n == cycles * p + p * k
  {
    assert p * n == p * cycles + p * k by { Distribute2(p, cycles, k); }
    assert s * n == s * cycles + s * k by { Distribute2(s, cycles, k); }
  }

  lemma Distribute2(x: int, a: int, b: int)
    ensures x * (a + b) == x * a + x * b
  {}
}
