/**
 Choosing a server (dm/x.go, dm/y.go, dm/z.go): a group of endpoints is tried in
 rounds; between rounds the endpoints are sorted by what the last attempt showed.
 */
module Endpoints {
  import opened Division
  import opened Options

  const PRIMARY_FIRST: int := 0
  const PRIMARY_ONLY: int := 1
  const STANDBY_ONLY: int := 2
  const STANDBY_FIRST: int := 3
  const NORMAL_FIRST: int := 4

  const NORMAL: int := 0
  const PRIMARY: int := 1
  const STANDBY: int := 2

  const MOUNT: int := 3
  const OPEN: int := 4
  const SUSPEND: int := 5

  const SORT_SERVER_MODE_INVALID: int := -1
  const SORT_SERVER_NOT_ALIVE: int := -2
  const SORT_UNKNOWN: int := 0x7FFF_FFFF

  /** What a server says about itself when a connection is made. */
  datatype Status = Status(mode: int, stat: int, dsc: bool)

  datatype Connector = Connector(
    loginMode: int,
    loginStatus: int,
    loginDscCtrl: bool,
    switchTimes: nat,
    headFirst: bool)

  // ---------- scores ----------

  function ModeScore(loginMode: int, mode: int): int {
    if loginMode == PRIMARY_FIRST then
      if mode == NORMAL then 300 else if mode == PRIMARY then 2000 else if mode == STANDBY then 10 else 0
    else if loginMode == STANDBY_FIRST then
      if mode == NORMAL then 30 else if mode == PRIMARY then 200 else if mode == STANDBY then 1000 else 0
    else if loginMode == NORMAL_FIRST then
      if mode == STANDBY then 10 else if mode == PRIMARY then 200 else if mode == NORMAL then 3000 else 0
    else if loginMode == PRIMARY_ONLY then 20
    else if loginMode == STANDBY_ONLY then 10
    else 0
  }

  function StatusScore(stat: int): int {
    if stat == MOUNT then 2 else if stat == OPEN then 3 else if stat == SUSPEND then 1 else 0
  }

  /** `calcSort` */
  function CalcSort(loginMode: int, mode: int, stat: int): int {
    if loginMode == PRIMARY_ONLY && mode != PRIMARY then SORT_SERVER_MODE_INVALID
    else if loginMode == STANDBY_ONLY && mode != STANDBY then SORT_SERVER_MODE_INVALID
    else ModeScore(loginMode, mode) + StatusScore(stat)
  }

  /** The score an endpoint has after an attempt. */
  function ReplyScore(loginMode: int, reply: Option<Status>): int {
    match reply
    case Some(s) => CalcSort(loginMode, s.mode, s.stat)
    case None => SORT_SERVER_NOT_ALIVE
  }

  /** The mode a login mode asks for first. */
  predicate Preferred(loginMode: int, mode: int) {
    if loginMode == NORMAL_FIRST then mode == NORMAL
    else if loginMode == PRIMARY_FIRST || loginMode == PRIMARY_ONLY then mode == PRIMARY
    else if loginMode == STANDBY_FIRST || loginMode == STANDBY_ONLY then mode == STANDBY
    else false
  }

  /** By mode, whatever the status: login mode 0 ranks primary (1) over normal (0) over
      standby (2), mode 3 standby over primary over normal, mode 4 normal over primary
      over standby; modes 1 and 2 take no other mode than primary and standby. */
  lemma ScoreOrder(s: int, t: int, other: int, mode: int)
    requires other !in {0, 1, 2}
    ensures CalcSort(0, 1, s) > CalcSort(0, 0, t) && CalcSort(0, 0, s) > CalcSort(0, 2, t)
      && CalcSort(0, 2, s) > CalcSort(0, other, t)
    ensures CalcSort(3, 2, s) > CalcSort(3, 1, t) && CalcSort(3, 1, s) > CalcSort(3, 0, t)
      && CalcSort(3, 0, s) > CalcSort(3, other, t)
    ensures CalcSort(4, 0, s) > CalcSort(4, 1, t) && CalcSort(4, 1, s) > CalcSort(4, 2, t)
      && CalcSort(4, 2, s) > CalcSort(4, other, t)
    ensures mode != 1 ==> CalcSort(1, 1, s) > 0 > CalcSort(1, mode, t)
    ensures mode != 2 ==> CalcSort(2, 2, s) > 0 > CalcSort(2, mode, t)
  {}

  /** Within a mode that may be connected to: OPEN (4) over MOUNT (3) over SUSPEND (5)
      over anything else. An endpoint that was not reached scores below all of them and
      one never tried above. */
  lemma StatusOrder(loginMode: int, mode: int, stat: int, other: int)
    requires 0 <= loginMode <= 4 && other !in {3, 4, 5}
    ensures (loginMode == 1 ==> mode == 1) && (loginMode == 2 ==> mode == 2) ==>
      && CalcSort(loginMode, mode, 4) > CalcSort(loginMode, mode, 3)
      && CalcSort(loginMode, mode, 3) > CalcSort(loginMode, mode, 5)
      && CalcSort(loginMode, mode, 5) > CalcSort(loginMode, mode, other)
    ensures ReplyScore(loginMode, None) < ReplyScore(loginMode, Some(Status(mode, stat, true))) < 0x7FFF_FFFF
  {}

  // ---------- what a connector accepts ----------

  predicate MeetsDemands(c: Connector, s: Status) {
    && (c.loginDscCtrl ==> s.dsc)
    && (c.loginStatus > 0 ==> s.stat == c.loginStatus)
    && (c.loginMode == PRIMARY_ONLY ==> s.mode == PRIMARY)
    && (c.loginMode == STANDBY_ONLY ==> s.mode == STANDBY)
  }

  predicate Accepts(c: Connector, s: Status, last: bool) {
    MeetsDemands(c, s) && (last || Preferred(c.loginMode, s.mode))
  }

  /** A server is accepted exactly when it has all that is demanded and, before the
      last round, is of the mode asked for first. */
  lemma AcceptedExactly(c: Connector, s: Status, last: bool)
    requires 0 <= c.loginMode <= 4
    ensures Accepts(c, s, last) <==>
      && (!c.loginDscCtrl || s.dsc) && (c.loginStatus <= 0 || s.stat == c.loginStatus)
      && (s.mode == 1 || c.loginMode != 1) && (s.mode == 2 || c.loginMode != 2)
      && (last || s.mode == [1, 1, 2, 2, 0][c.loginMode])
  {}

  // ---------- objects ----------

  class Ep {
    const name: int
    var alive: bool
    var serverMode: int
    var serverStatus: int
    var dscControl: bool
    var sort: int

    constructor (name: int)
      ensures this.name == name && sort == 0x7FFF_FFFF
    {
      this.name := name;
      alive, dscControl := false, false;
      serverMode, serverStatus, sort := -1, -1, SORT_UNKNOWN;
    }

    /** `refreshStatus` */
    method RefreshStatus(status: Option<Status>, loginMode: int)
      modifies this
      ensures alive == status.Some? && sort == ReplyScore(loginMode, status)
      ensures match status
        case Some(s) => serverMode == s.mode && serverStatus == s.stat && dscControl == s.dsc
        case None => serverMode == serverStatus == -1 && !dscControl
    {
      match status
      case Some(s) =>
        alive, serverMode, serverStatus, dscControl := true, s.mode, s.stat, s.dsc;
        sort := CalcSort(loginMode, serverMode, serverStatus);
      case None =>
        alive, serverMode, serverStatus, dscControl := false, -1, -1, false;
        sort := SORT_SERVER_NOT_ALIVE;
    }
  }

  class Conn {
    const ep: Ep
    const status: Status
    var closed: bool

    constructor (ep: Ep, status: Status)
      ensures this.ep == ep && this.status == status && !closed
    {
      this.ep, this.status, closed := ep, status, false;
    }

    method Close()
      modifies this
      ensures closed
    {
      closed := true;
    }
  }

  /** The network: what the n-th attempt anywhere meets at an endpoint. */
  class Network {
    var attempts: nat
    const reply: (int, nat) -> Option<Status>

    constructor (reply: (int, nat) -> Option<Status>)
      ensures attempts == 0 && this.reply == reply
    {
      attempts, this.reply := 0, reply;
    }
  }

  /** `ep.connect` */
  method ConnectTo(ep: Ep, c: Connector, net: Network) returns (conn: Conn?)
    modifies ep, net
    ensures net.attempts == old(net.attempts) + 1
    ensures conn != null <==> net.reply(ep.name, old(net.attempts)).Some?
    ensures conn != null ==> fresh(conn) && conn.ep == ep && !conn.closed
    ensures conn != null ==> conn.status == net.reply(ep.name, old(net.attempts)).value
    ensures ep.sort == ReplyScore(c.loginMode, net.reply(ep.name, old(net.attempts)))
  {
    var status := net.reply(ep.name, net.attempts);
    net.attempts := net.attempts + 1;
    ep.RefreshStatus(status, c.loginMode);
    conn := null;
    if status.Some? {
      conn := new Conn(ep, status.value);
    }
  }

  /** `checkServerMode`: the answer, and whether it was an error; an error leaves the
      connection closed. */
  method CheckServerMode(c: Connector, conn: Conn, last: bool) returns (valid: bool, err: bool)
    requires !conn.closed
    modifies conn
    ensures (valid && !err) <==> Accepts(c, conn.status, last)
    ensures err <==> conn.closed
    ensures err ==> !valid
  {
    err := false;
    if c.loginDscCtrl && !conn.status.dsc {
      conn.Close();
      return false, true;
    }
    if c.loginStatus > 0 && conn.status.stat != c.loginStatus {
      conn.Close();
      return false, true;
    }
    if last {
      if c.loginMode == PRIMARY_ONLY {
        return conn.status.mode == PRIMARY, false;
      }
      if c.loginMode == STANDBY_ONLY {
        return conn.status.mode == STANDBY, false;
      }
      return true, false;
    }
    if c.loginMode == NORMAL_FIRST {
      return conn.status.mode == NORMAL, false;
    }
    if c.loginMode == PRIMARY_FIRST || c.loginMode == PRIMARY_ONLY {
      return conn.status.mode == PRIMARY, false;
    }
    if c.loginMode == STANDBY_FIRST || c.loginMode == STANDBY_ONLY {
      return conn.status.mode == STANDBY, false;
    }
    return false, false;
  }

  // ---------- sorting ----------

  /** A slice of endpoints; a selector may share the group's own. */
  class EpList {
    var eps: seq<Ep>

    constructor (eps: seq<Ep>)
      ensures this.eps == eps
    {
      this.eps := eps;
    }
  }

  predicate SortedBy(scores: seq<int>) {
    forall i, j :: 0 <= i < j < |scores| ==> scores[i] >= scores[j]
  }

  function Scores(eps: seq<Ep>): (r: seq<int>)
    reads eps
    ensures |r| == |eps|
  {
    seq(|eps|, i requires 0 <= i < |eps| reads eps => eps[i].sort)
  }

  /** How many endpoints come before one with this score. */
  method Place(eps: seq<Ep>, score: int) returns (k: nat)
    ensures k <= |eps|
    ensures k > 0 ==> Scores(eps)[k - 1] >= score
    ensures forall i :: k <= i < |eps| ==> Scores(eps)[i] < score
  {
    k := |eps|;
    while k > 0 && eps[k - 1].sort < score
      invariant 0 <= k <= |eps|
      invariant forall i :: k <= i < |eps| ==> Scores(eps)[i] < score
    {
      k := k - 1;
    }
  }

  /** Puts one more endpoint into a sorted list. */
  method InsertSorted(eps: seq<Ep>, ep: Ep) returns (r: seq<Ep>)
    requires SortedBy(Scores(eps))
    ensures SortedBy(Scores(r)) && multiset(r) == multiset(eps) + multiset{ep} && |r| == |eps| + 1
  {
    hide SortedBy;
    var k := Place(eps, ep.sort);
    r := eps[..k] + [ep] + eps[k..];
    ghost var xs := Scores(eps);
    InsertScore(xs, k, ep.sort);
    assert Scores(r) == xs[..k] + [ep.sort] + xs[k..];
    InsertMultiset(eps, k, ep);
  }

  lemma InsertMultiset(eps: seq<Ep>, k: nat, ep: Ep)
    requires k <= |eps|
    ensures multiset(eps[..k] + [ep] + eps[k..]) == multiset(eps) + multiset{ep}
  {
    assert eps == eps[..k] + eps[k..];
  }

  lemma InsertScore(xs: seq<int>, k: nat, v: int)
    requires SortedBy(xs) && k <= |xs|
    requires k > 0 ==> xs[k - 1] >= v
    requires forall i :: k <= i < |xs| ==> xs[i] < v
    ensures SortedBy(xs[..k] + [v] + xs[k..])
  {
    var r := xs[..k] + [v] + xs[k..];
    forall i, j | 0 <= i < j < |r| ensures r[i] >= r[j] {
      assert i < k ==> r[i] == xs[i] >= xs[k - 1];
      assert j > k ==> r[j] == xs[j - 1];
    }
  }

  /** `sortDBList`: from the second round on, highest score first. */
  method SortDBList(list: EpList, first: bool)
    modifies list
    ensures multiset(list.eps) == multiset(old(list.eps)) && |list.eps| == |old(list.eps)|
    ensures first ==> list.eps == old(list.eps)
    ensures !first ==> SortedBy(Scores(list.eps))
  {
    if first {
      return;
    }
    var sorted: seq<Ep> := [];
    var i := 0;
    while i < |list.eps|
      invariant 0 <= i <= |list.eps| && |sorted| == i
      invariant list.eps == old(list.eps)
      invariant SortedBy(Scores(sorted)) && multiset(sorted) == multiset(list.eps[..i])
    {
      assert list.eps[..i + 1] == list.eps[..i] + [list.eps[i]];
      sorted := InsertSorted(sorted, list.eps[i]);
      i := i + 1;
    }
    assert list.eps[..i] == list.eps;
    list.eps := sorted;
  }

  // ---------- one round ----------

  /** The attempt on the k-th endpoint of a round does not end in a connection. */
  predicate Fails(c: Connector, net: Network, ep: Ep, attempt: nat, last: bool) {
    var r := net.reply(ep.name, attempt);
    r.None? || !Accepts(c, r.value, last)
  }

  /** The score comes from an attempt on the endpoint numbered from `from` up to `to`. */
  ghost predicate ScoredIn(c: Connector, net: Network, ep: Ep, score: int, from: nat, to: nat) {
    exists a :: from <= a < to && score == ReplyScore(c.loginMode, net.reply(ep.name, a))
  }

  /** Every endpoint carries the score of an attempt in that range. */
  ghost predicate AllScored(c: Connector, net: Network, eps: seq<Ep>, from: nat, to: nat)
    reads eps
  {
    forall e :: e in eps ==> ScoredIn(c, net, e, e.sort, from, to)
  }

  /** Every connection that was made is closed, except the one kept. */
  ghost predicate OthersClosed(made: set<Conn>, kept: Conn?)
    reads made
  {
    forall conn :: conn in made ==> (conn.closed <==> conn != kept)
  }

  /** One attempt, and what it does to the scores of the endpoints tried so far. */
  method TryNext(server: Ep, c: Connector, net: Network, ghost eps: seq<Ep>, ghost tried: nat, ghost start: nat)
    returns (conn: Conn?)
    requires tried < |eps| && eps[tried] == server && start <= net.attempts
    requires AllScored(c, net, eps[..tried], start, net.attempts)
    modifies server, net
    ensures net.attempts == old(net.attempts) + 1
    ensures conn != null <==> net.reply(server.name, old(net.attempts)).Some?
    ensures conn != null ==> fresh(conn) && conn.ep == server && !conn.closed
    ensures conn != null ==> conn.status == net.reply(server.name, old(net.attempts)).value
    ensures AllScored(c, net, eps[..tried + 1], start, net.attempts)
  {
    ghost var attempt := net.attempts;
    conn := ConnectTo(server, c, net);
    forall e | e in eps[..tried + 1] ensures ScoredIn(c, net, e, e.sort, start, net.attempts) {
      if e == server {
        assert ScoredIn(c, net, e, e.sort, attempt, net.attempts);
      } else {
        assert e in eps[..tried];
        assert ScoredIn(c, net, e, e.sort, start, attempt);
      }
    }
  }

  /** `traverseServerList` over the sorted list: endpoints are tried in order, and
      the first acceptable one is kept. `tried` attempts were made. */
  method Traverse(c: Connector, eps: seq<Ep>, net: Network, last: bool)
    returns (conn: Conn?, tried: nat, ghost made: set<Conn>)
    modifies net, set e | e in eps
    ensures fresh(made) && OthersClosed(made, conn)
    ensures tried <= |eps| && net.attempts == old(net.attempts) + tried
    ensures conn != null ==> conn in made && 1 <= tried && conn.ep == eps[tried - 1]
    ensures conn != null ==> Accepts(c, conn.status, last)
    ensures conn != null ==> net.reply(conn.ep.name, old(net.attempts) + tried - 1) == Some(conn.status)
    ensures forall k :: 0 <= k < (if conn != null then tried - 1 else tried) ==>
      Fails(c, net, eps[k], old(net.attempts) + k, last)
    ensures conn == null ==> tried == |eps| && AllScored(c, net, eps, old(net.attempts), net.attempts)
  {
    conn, made := null, {};
    tried := 0;
    ghost var start := net.attempts;
    while tried < |eps|
      invariant 0 <= tried <= |eps| && net.attempts == old(net.attempts) + tried
      invariant fresh(made) && OthersClosed(made, null)
      invariant forall k :: 0 <= k < tried ==> Fails(c, net, eps[k], old(net.attempts) + k, last)
      invariant AllScored(c, net, eps[..tried], start, net.attempts)
    {
      var server := eps[tried];
      assert server in eps;
      ghost var attempt := net.attempts;
      var candidate := TryNext(server, c, net, eps, tried, start);
      tried := tried + 1;
      if candidate != null {
        made := made + {candidate};
        var valid, err := CheckServerMode(c, candidate, last);
        if !err {
          if valid {
            conn := candidate;
            return;
          }
          candidate.Close();
        }
      }
      assert Fails(c, net, server, attempt, last);
    }
    assert eps[..tried] == eps;
  }

  // ---------- the group ----------

  /** How one call came about: the last round's list and scores, the place in it of the
      connection, and the numbers of the first attempt of that round and the one before. */
  datatype Trace = Trace(round: nat, order: seq<Ep>, scores: seq<int>, index: nat, start: nat, prev: nat)

  class Group {
    var epList: EpList
    var epStartPos: int

    ghost predicate Valid()
      reads this, epList
    {
      |epList.eps| >= 1 && -1 <= epStartPos < |epList.eps|
    }

    /** `newEPGroup`, with the random start position as a parameter. */
    constructor (servers: seq<Ep>, start: int)
      requires |servers| >= 1 && -1 <= start < |servers| - 1
      ensures Valid() && fresh(epList) && epList.eps == servers && epStartPos == start
    {
      epList := new EpList(servers);
      epStartPos := start;
    }

    /** `getEPSelector`: head-first uses the group's own list; otherwise a copy that
        starts one endpoint further than the time before. */
    method GetEPSelector(c: Connector) returns (dbs: EpList)
      requires Valid()
      modifies this`epStartPos
      ensures Valid() && epList.eps == old(epList.eps)
      ensures c.headFirst ==> dbs == epList && epStartPos == old(epStartPos)
      ensures !c.headFirst ==>
        && fresh(dbs) && epStartPos == (old(epStartPos) + 1) % |epList.eps|
        && dbs.eps == epList.eps[epStartPos..] + epList.eps[..epStartPos]
    {
      if c.headFirst {
        return epList;
      }
      var serverCount := |epList.eps|;
      var pos := (epStartPos + 1) % serverCount;
      epStartPos := pos;
      var sortEPs: seq<Ep> := [];
      var i := 0;
      ghost var rotated := epList.eps[pos..] + epList.eps[..pos];
      while i < serverCount
        invariant 0 <= i <= serverCount && sortEPs == rotated[..i]
        invariant |rotated| == serverCount && epStartPos == pos
      {
        Rotate(serverCount, pos, i);
        sortEPs := sortEPs + [epList.eps[(i + pos) % serverCount]];
        i := i + 1;
      }
      dbs := new EpList(sortEPs);
    }

    /** `connect` */
    method Connect(c: Connector, net: Network) returns (conn: Conn?, ghost made: set<Conn>, ghost t: Trace)
      requires Valid()
      modifies this, epList, net, set e | e in epList.eps
      ensures fresh(made) && OthersClosed(made, conn)
      ensures conn != null ==>
        && (c.loginDscCtrl ==> conn.status.dsc) && (c.loginStatus > 0 ==> conn.status.stat == c.loginStatus)
        && (c.loginMode == 1 ==> conn.status.mode == 1) && (c.loginMode == 2 ==> conn.status.mode == 2)
        && conn in made && GoodTrace(c, net, conn, t, old(epList.eps), Cycles(c, |old(epList.eps)|))
      ensures conn == null && Cycles(c, |old(epList.eps)|) > 0 ==> Exhausted(c, net, t, old(epList.eps), true)
      ensures Cycles(c, |old(epList.eps)|) == 0 ==> conn == null
      ensures conn == null ==>
        net.attempts == old(net.attempts)
          + (if |old(epList.eps)| == 1 then c.switchTimes else c.switchTimes + 1) * |old(epList.eps)|
      ensures conn != null && 0 <= c.loginMode <= 4 && conn.status.mode != [1, 1, 2, 2, 0][c.loginMode] ==>
        t.round + 1 == if |old(epList.eps)| == 1 then c.switchTimes else c.switchTimes + 1
    {
      hide GoodTrace, OthersClosed, Exhausted, AllScored;
      conn, made, t := null, {}, Trace(0, [], [], 0, 0, 0);
      ghost var all := epList.eps;
      var dbs := GetEPSelector(c);
      RotationKeeps(all, if epStartPos >= 0 then epStartPos else 0);
      var cycleCount := if |epList.eps| == 1 then c.switchTimes else c.switchTimes + 1;
      NoneMade(conn);
      ghost var prev := net.attempts;
      var i := 0;
      while i < cycleCount
        invariant 0 <= i && conn == null
        invariant fresh(made) && OthersClosed(made, null)
        invariant multiset(dbs.eps) == multiset(all)
        invariant dbs == old(epList) || fresh(dbs)
        invariant i > 0 ==> Exhausted(c, net, t, all, i == cycleCount)
        invariant i <= cycleCount
        invariant net.attempts == old(net.attempts) + i * |all|
        invariant i > 0 ==> AllScored(c, net, dbs.eps, prev, net.attempts)
      {
        SameElements(dbs.eps, all);
        SameLength(dbs.eps, all);
        OneMoreRound(i, |all|);
        ghost var more, now := {}, net.attempts;
        conn, more, t := Round(c, dbs, net, i, cycleCount, all, prev);
        prev := now;
        MoreClosed(made, more, conn);
        made := made + more;
        if conn != null {
          LastRoundOnly(c, net, conn, t, all, cycleCount);
          return;
        }
        i := i + 1;
      }
    }
  }

  lemma OneMoreRound(i: nat, n: nat)
    ensures (i + 1) * n == i * n + n
  {}

  lemma LastRoundOnly(c: Connector, net: Network, conn: Conn, t: Trace, all: seq<Ep>, cycles: nat)
    requires GoodTrace(c, net, conn, t, all, cycles)
    ensures 0 <= c.loginMode <= 4 && conn.status.mode != [1, 1, 2, 2, 0][c.loginMode] ==> t.round + 1 == cycles
  {}

  function Cycles(c: Connector, n: nat): nat { if n == 1 then c.switchTimes else c.switchTimes + 1 }

  /** The connection came from the endpoint at `index` of the round's list, which
      after the first round is sorted by score; every endpoint before it failed in
      this same round; and a mode that is not preferred was accepted only in the last. */
  ghost predicate GoodTrace(c: Connector, net: Network, conn: Conn, t: Trace, all: seq<Ep>, cycles: nat) {
    && t.round < cycles
    && t.index < |t.order| == |t.scores| && t.order[t.index] == conn.ep
    && multiset(t.order) == multiset(all)
    && (!Preferred(c.loginMode, conn.status.mode) ==> t.round == cycles - 1)
    && (t.round > 0 ==> SortedBy(t.scores))
    && (t.round > 0 ==> forall k :: 0 <= k < |t.order| ==> ScoredIn(c, net, t.order[k], t.scores[k], t.prev, t.start))
    && (forall k :: 0 <= k < t.index ==> Fails(c, net, t.order[k], t.start + k, t.round == cycles - 1))
    && net.reply(conn.ep.name, t.start + t.index) == Some(conn.status)
  }

  /** A whole round in which every endpoint failed. */
  ghost predicate Exhausted(c: Connector, net: Network, t: Trace, all: seq<Ep>, last: bool) {
    && multiset(t.order) == multiset(all)
    && forall k :: 0 <= k < |t.order| ==> Fails(c, net, t.order[k], t.start + k, last)
  }

  /** After the first round, every endpoint whose last attempt scored higher than the one
      connected to has failed in the same round. */
  lemma HigherScoresFailed(c: Connector, net: Network, conn: Conn, t: Trace, all: seq<Ep>, cycles: nat, k: nat)
    requires GoodTrace(c, net, conn, t, all, cycles) && t.round > 0
    requires k < |t.order| && t.scores[k] > t.scores[t.index]
    ensures ScoredIn(c, net, t.order[k], t.scores[k], t.prev, t.start)
    ensures Fails(c, net, t.order[k], t.start + k, t.round == cycles - 1)
  {
    hide ScoredIn, Fails;
    assert !(t.index <= k);
  }

  lemma NoneMade(conn: Conn?)
    requires conn == null
    ensures OthersClosed({}, conn)
  {}

  lemma MoreClosed(made: set<Conn>, more: set<Conn>, kept: Conn?)
    requires OthersClosed(made, null) && OthersClosed(more, kept)
    requires kept !in made
    ensures OthersClosed(made + more, kept)
  {}

  /** One round of `connect`: sort, then try everybody. */
  method Round(c: Connector, dbs: EpList, net: Network, i: nat, cycles: nat, ghost all: seq<Ep>, ghost prev: nat)
    returns (conn: Conn?, ghost made: set<Conn>, ghost t: Trace)
    requires i < cycles && multiset(dbs.eps) == multiset(all)
    requires i > 0 ==> AllScored(c, net, dbs.eps, prev, net.attempts)
    modifies dbs, net, set e | e in dbs.eps
    ensures multiset(dbs.eps) == multiset(all)
    ensures fresh(made) && OthersClosed(made, conn)
    ensures conn != null ==> conn in made && MeetsDemands(c, conn.status) && GoodTrace(c, net, conn, t, all, cycles)
    ensures conn == null ==> Exhausted(c, net, t, all, i == cycles - 1)
    ensures conn == null ==> AllScored(c, net, dbs.eps, old(net.attempts), net.attempts)
    ensures conn == null ==> net.attempts == old(net.attempts) + |old(dbs.eps)|
  {
    hide OthersClosed, Fails, ScoredIn, SortedBy;
    ghost var before := dbs.eps;
    SortDBList(dbs, i == 0);
    SameElements(dbs.eps, before);
    var order := dbs.eps;
    ghost var scores, start := Scores(order), net.attempts;
    assert i > 0 ==> forall k :: 0 <= k < |order| ==> ScoredIn(c, net, order[k], scores[k], prev, start);
    var tried;
    conn, tried, made := Traverse(c, order, net, i == cycles - 1);
    t := Trace(i, order, scores, if tried > 0 then tried - 1 else 0, start, prev);
  }

  lemma SameElements(a: seq<Ep>, b: seq<Ep>)
    requires multiset(a) == multiset(b)
    ensures forall e :: e in a ==> e in b
  {
    forall e | e in a ensures e in b {
      assert e in multiset(a);
    }
  }

  lemma SameLength(a: seq<Ep>, b: seq<Ep>)
    requires multiset(a) == multiset(b)
    ensures |a| == |b|
  {
    assert |multiset(a)| == |a| && |multiset(b)| == |b|;
  }

  lemma RotationKeeps(eps: seq<Ep>, k: nat)
    requires k <= |eps|
    ensures multiset(eps[k..] + eps[..k]) == multiset(eps)
  {
    assert eps == eps[..k] + eps[k..];
  }

  lemma Rotate(n: nat, start: nat, i: nat)
    requires start < n && i < n
    ensures (i + start) % n == if i + start < n then i + start else i + start - n
  {}

  // ---------- even distribution ----------

  /** The start position after k more selections. */
  function StartAfter(start: int, n: nat, k: nat): int
    requires n >= 1
  {
    if k == 0 then start else (StartAfter(start, n, k - 1) + 1) % n
  }

  lemma {:induction false} StartAfterIs(start: int, n: nat, k: nat)
    requires n >= 1 && -1 <= start < n && k >= 1
    ensures StartAfter(start, n, k) == (start + k) % n
    decreases k
  {
    if k > 1 {
      StartAfterIs(start, n, k - 1);
      ModStep(start + k - 1, n);
    }
  }

  lemma ModStep(x: int, n: nat)
    requires n >= 1
    ensures (x % n + 1) % n == (x + 1) % n
  {
    var q, r := x / n, x % n;
    assert x == n * q + r;
    if r + 1 < n {
      DivisionIs(x + 1, n, q, r + 1);
      DivisionIs(r + 1, n, 0, r + 1);
    } else {
      Distribute(n, q, -1);
      DivisionIs(x + 1, n, q + 1, 0);
      DivisionIs(r + 1, n, 1, 0);
    }
  }

  /** n successive selections start at n different endpoints. */
  lemma StartsDiffer(start: int, n: nat, j: nat, k: nat)
    requires n >= 1 && -1 <= start < n && 1 <= j < k <= n
    ensures StartAfter(start, n, j) != StartAfter(start, n, k)
    ensures 0 <= StartAfter(start, n, j) < n
  {
    hide StartAfter;
    StartAfterIs(start, n, j);
    StartAfterIs(start, n, k);
    var x, y := start + j, start + k;
    var p, q := x / n, y / n;
    if x % n == y % n {
      assert x == n * p + x % n && y == n * q + y % n;
      if p < q {
        ProductGrows(n, p, q);
      } else if q < p {
        ProductGrows(n, q, p);
      }
    }
  }

  /** k selections in a row, and the endpoint each of them starts with: the
      places of the group's list in turn, so n selections start at all n places. */
  method Selections(g: Group, c: Connector, k: nat) returns (firsts: seq<Ep>)
    requires g.Valid() && !c.headFirst
    modifies g`epStartPos
    ensures g.Valid() && g.epList.eps == old(g.epList.eps)
    ensures var n := |g.epList.eps|;
      |firsts| == k && forall i :: 0 <= i < k ==> firsts[i] == g.epList.eps[(old(g.epStartPos) + 1 + i) % n]
    ensures k == |g.epList.eps| ==> multiset(firsts) == multiset(g.epList.eps)
  {
    firsts := [];
    ghost var start, eps, n := g.epStartPos, g.epList.eps, |g.epList.eps|;
    var i := 0;
    while i < k
      invariant 0 <= i <= k && |firsts| == i
      invariant g.Valid() && g.epList.eps == eps && g.epStartPos == StartAfter(start, n, i)
      invariant forall j :: 0 <= j < i ==> firsts[j] == eps[(start + 1 + j) % n]
    {
      var dbs := g.GetEPSelector(c);
      i := i + 1;
      StartAfterIs(start, n, i);
      firsts := firsts + [dbs.eps[0]];
    }
    if k == n {
      FullTurn(eps, firsts, start);
    }
  }

  lemma FullTurn(eps: seq<Ep>, firsts: seq<Ep>, start: int)
    requires |firsts| == |eps| >= 1 && -1 <= start < |eps|
    requires forall i :: 0 <= i < |eps| ==> firsts[i] == eps[(start + 1 + i) % |eps|]
    ensures multiset(firsts) == multiset(eps)
  {
    var n := |eps|;
    var p := if start + 1 == n then 0 else start + 1;
    RotationKeeps(eps, p);
    forall i | 0 <= i < n ensures firsts[i] == (eps[p..] + eps[..p])[i] {
      Rotate(n, p, i);
      if start + 1 == n {
        ModShift(n, i);
      }
    }
    assert firsts == eps[p..] + eps[..p];
  }

  lemma ModShift(n: nat, i: nat)
    requires i < n
    ensures (n + i) % n == i
  {
    DivisionIs(n + i, n, 1, i);
  }
}
