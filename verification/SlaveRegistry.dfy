/** The master's list of slaves (replication/replication_manager.cpp) as a sequence of records. */
module SlaveRegistry {
  import opened Decimal

  datatype LinkState = Connecting | Connected | Syncing | Online | Disconnected

  datatype Slave = Slave(id: string, host: string, port: int, state: LinkState,
                         lastPing: int, offset: int, online: bool)

  function SlaveId(host: string, port: int): string {
    host + ":" + IntToString(port)
  }

  /** A record as the SlaveInfo constructor makes it: never pinged, at the clock's epoch. */
  function NewSlave(host: string, port: int): Slave {
    Slave(SlaveId(host, port), host, port, Connecting, 0, 0, false)
  }

  // ---------------------------------------------------------------- operations

  predicate Listed(slaves: seq<Slave>, host: string, port: int) {
    exists i :: 0 <= i < |slaves| && slaves[i].host == host && slaves[i].port == port
  }

  function Add(slaves: seq<Slave>, host: string, port: int): (seq<Slave>, bool) {
    if Listed(slaves, host, port) then (slaves, false) else (slaves + [NewSlave(host, port)], true)
  }

  function Remove(slaves: seq<Slave>, id: string): seq<Slave> {
    if slaves == [] then []
    else (if slaves[0].id == id then [] else [slaves[0]]) + Remove(slaves[1..], id)
  }

  /** cleanupDeadSlaves: records not heard of for more than three ping intervals go. */
  function Sweep(slaves: seq<Slave>, now: int, interval: nat): seq<Slave> {
    if slaves == [] then []
    else (if now - slaves[0].lastPing > 3 * interval then [] else [slaves[0]]) + Sweep(slaves[1..], now, interval)
  }

  /** checkSlaveHealth on one record. */
  function Checked(s: Slave, now: int, interval: nat): Slave {
    if s.online && now - s.lastPing > 2 * interval then s.(online := false, state := Disconnected) else s
  }

  /** pingSlaves on one record. */
  function Pinged(s: Slave, now: int): Slave {
    if s.online then s.(lastPing := now) else s.(state := Connecting)
  }

  predicate Named(s: Slave, id: string) {
    s.id == id || SlaveId(s.host, s.port) == id
  }

  /** Index of the first record with the name, or the length. */
  function FirstNamed(slaves: seq<Slave>, id: string): (p: nat)
    ensures p <= |slaves| && (forall i :: 0 <= i < p ==> !Named(slaves[i], id))
    ensures p < |slaves| ==> Named(slaves[p], id)
  {
    if slaves == [] || Named(slaves[0], id) then 0 else 1 + FirstNamed(slaves[1..], id)
  }

  /** updateSlavePing: the loop stops at the first match. */
  function Heard(slaves: seq<Slave>, id: string, now: int): seq<Slave> {
    var p := FirstNamed(slaves, id);
    if p == |slaves| then slaves else slaves[p := slaves[p].(lastPing := now, online := true)]
  }

  /** updateSlaveOffset. */
  function Acknowledged(slaves: seq<Slave>, id: string, offset: int): seq<Slave> {
    var p := FirstNamed(slaves, id);
    if p == |slaves| then slaves else slaves[p := slaves[p].(offset := offset)]
  }

  /** Index of the first record with the host, or the length. */
  function FirstAt(slaves: seq<Slave>, host: string): (p: nat)
    ensures p <= |slaves| && (forall i :: 0 <= i < p ==> slaves[i].host != host)
    ensures p < |slaves| ==> slaves[p].host == host
  {
    if slaves == [] || slaves[0].host == host then 0 else 1 + FirstAt(slaves[1..], host)
  }

  /** The list Register works on: with a fresh record for the host if there was none. */
  function WithHost(slaves: seq<Slave>, host: string): seq<Slave> {
    if FirstAt(slaves, host) == |slaves| then slaves + [NewSlave(host, 0)] else slaves
  }

  /** The first part of handleSlaveConnection: find or create the record by host alone, mark it
      connected, and after the handshake reply see whether it lags. Returns the list, the
      record's index and whether the commands it lacks are to be sent. */
  function Register(slaves: seq<Slave>, host: string, now: int, sent: bool, offset: int): (r: (seq<Slave>, nat, bool))
    ensures r.1 < |r.0|
  {
    var p, all := FirstAt(slaves, host), WithHost(slaves, host);
    var s := all[p].(state := Connected, online := true, lastPing := now);
    if !sent then (all[p := s.(online := false, state := Disconnected)], p, false)
    else if s.offset < offset then (all[p := s.(state := Syncing)], p, true)
    else (all[p := s], p, false)
  }

  /** sendSyncCommands and the end of handleSlaveConnection. */
  function CaughtUp(slaves: seq<Slave>, p: nat, offset: int): seq<Slave> {
    if p < |slaves| then slaves[p := slaves[p].(offset := offset, state := Online)] else slaves
  }

  function Each(slaves: seq<Slave>, f: Slave -> Slave): (r: seq<Slave>)
    ensures |r| == |slaves| && forall i :: 0 <= i < |r| ==> r[i] == f(slaves[i])
  {
    seq(|slaves|, i requires 0 <= i < |slaves| => f(slaves[i]))
  }

  /** The operations that only touch the list. */
  datatype Edit =
    | Adding(host: string, port: int)
    | Removing(id: string)
    | Sweeping(now: int)
    | Checking(now: int)
    | Pinging(now: int)
    | Hearing(id: string, now: int)
    | Acknowledging(id: string, offset: int)

  function Apply(slaves: seq<Slave>, e: Edit, interval: nat): seq<Slave> {
    match e
    case Adding(host, port) => Add(slaves, host, port).0
    case Removing(id) => Remove(slaves, id)
    case Sweeping(now) => Sweep(slaves, now, interval)
    case Checking(now) => Each(slaves, s => Checked(s, now, interval))
    case Pinging(now) => Each(slaves, s => Pinged(s, now))
    case Hearing(id, now) => Heard(slaves, id, now)
    case Acknowledging(id, offset) => Acknowledged(slaves, id, offset)
  }

  // ---------------------------------------------------------------- statistics

  function OnlineCount(slaves: seq<Slave>): nat {
    if slaves == [] then 0 else (if slaves[0].online then 1 else 0) + OnlineCount(slaves[1..])
  }

  /** How far the slaves online are behind, all together. */
  function TotalLag(slaves: seq<Slave>, offset: int): int {
    if slaves == [] then 0
    else (if slaves[0].online then offset - slaves[0].offset else 0) + TotalLag(slaves[1..], offset)
  }

  /** The division of int64_t, which truncates; no slaves online make the lag zero. */
  function MeanLag(total: int, online: nat): int {
    if online == 0 then 0 else if total >= 0 then total / online else -((-total) / online)
  }

  lemma {:induction false} StatisticsConcat(a: seq<Slave>, b: seq<Slave>, offset: int)
    ensures OnlineCount(a + b) == OnlineCount(a) + OnlineCount(b)
    ensures TotalLag(a + b, offset) == TotalLag(a, offset) + TotalLag(b, offset)
  {
    if a == [] {
      assert a + b == b;
    } else {
      assert (a + b)[1..] == a[1..] + b;
      StatisticsConcat(a[1..], b, offset);
    }
  }

  lemma StatisticsAppend(slaves: seq<Slave>, s: Slave, offset: int)
    ensures OnlineCount(slaves + [s]) == OnlineCount(slaves) + if s.online then 1 else 0
    ensures TotalLag(slaves + [s], offset) == TotalLag(slaves, offset) + if s.online then offset - s.offset else 0
  {
    StatisticsConcat(slaves, [s], offset);
  }

  /** The number of slaves online is the number of places with one. */
  lemma {:induction false} OnlineCountIs(slaves: seq<Slave>)
    ensures OnlineCount(slaves) == |set i | 0 <= i < |slaves| && slaves[i].online|
  {
    if slaves != [] {
      var init, n := slaves[..|slaves| - 1], |slaves| - 1;
      assert slaves == init + [slaves[n]];
      OnlineCountIs(init);
      StatisticsAppend(init, slaves[n], 0);
      var before := set i | 0 <= i < |init| && init[i].online;
      var all := set i | 0 <= i < |slaves| && slaves[i].online;
      assert n !in before && all == if slaves[n].online then before + {n} else before;
    }
  }

  lemma {:induction false} TotalLagBetween(slaves: seq<Slave>, offset: int, low: int, high: int)
    requires forall s :: s in slaves && s.online ==> low <= offset - s.offset <= high
    ensures low * OnlineCount(slaves) <= TotalLag(slaves, offset) <= high * OnlineCount(slaves)
  {
    if slaves != [] {
      TotalLagBetween(slaves[1..], offset, low, high);
      var first, n := (if slaves[0].online then 1 else 0), OnlineCount(slaves[1..]);
      assert low * (first + n) == low * first + low * n && high * (first + n) == high * first + high * n;
    }
  }

  /** The published lag lies between the least and the greatest lag of a slave online. */
  lemma {:induction false} MeanLagBetween(slaves: seq<Slave>, offset: int, low: int, high: int)
    requires OnlineCount(slaves) > 0
    requires forall s :: s in slaves && s.online ==> low <= offset - s.offset <= high
    ensures low <= MeanLag(TotalLag(slaves, offset), OnlineCount(slaves)) <= high
  {
    TotalLagBetween(slaves, offset, low, high);
    QuotientBetween(TotalLag(slaves, offset), OnlineCount(slaves), low, high);
  }

  lemma Remainder(total: int, n: nat)
    requires total >= 0 && n > 0
    ensures 0 <= total - total / n * n < n
    ensures total == 0 ==> total / n == 0
  {
    assert total == total / n * n + total % n;
  }

  /** It is rounded towards zero, and zero if no slave is online. */
  lemma {:induction false} MeanLagTruncates(total: int, online: nat)
    ensures online == 0 ==> MeanLag(total, online) == 0
    ensures online > 0 && total >= 0 ==> 0 <= total - MeanLag(total, online) * online < online
    ensures MeanLag(-total, online) == -MeanLag(total, online)
  {
    if total >= 0 && online > 0 { Remainder(total, online); }
  }

  lemma QuotientBetween(total: int, n: nat, low: int, high: int)
    requires n > 0 && low * n <= total <= high * n
    ensures low <= MeanLag(total, n) <= high
  {
    if total >= 0 {
      FloorBetween(total, n, low, high);
    } else {
      assert -high * n == -(high * n) && -low * n == -(low * n);
      FloorBetween(-total, n, -high, -low);
    }
  }

  lemma FloorBetween(total: int, n: nat, low: int, high: int)
    requires n > 0 && total >= 0 && low * n <= total <= high * n
    ensures low <= total / n <= high
  {
    var q := total / n;
    assert q * n <= total < (q + 1) * n by { assert (q + 1) * n == q * n + n; }
    if q < low { TimesKeepsOrder(q + 1, low, n); }
    if q > high { TimesKeepsOrder(high, q - 1, n); }
  }

  lemma TimesKeepsOrder(a: int, b: int, n: nat)
    requires a <= b
    ensures a * n <= b * n
  {
    assert 0 <= (b - a) * n == b * n - a * n;
  }

  // ---------------------------------------------------------------- identity

  /** Every id is the printed address, and no two records share one. */
  predicate Distinct(slaves: seq<Slave>) {
    && (forall i :: 0 <= i < |slaves| ==> slaves[i].id == SlaveId(slaves[i].host, slaves[i].port))
    && (forall i, j :: 0 <= i < j < |slaves| ==> slaves[i].id != slaves[j].id)
  }

  /** The last colon separates host and port, so the id determines both even when the host
      contains colons. */
  lemma {:induction false} SlaveIdInjective(h1: string, p1: int, h2: string, p2: int)
    requires SlaveId(h1, p1) == SlaveId(h2, p2)
    ensures h1 == h2 && p1 == p2
  {
    var d1, d2, id := IntToString(p1), IntToString(p2), SlaveId(h1, p1);
    assert id[|h1|] == ':' && id[|h2|] == ':';
    assert forall i :: |h1| < i < |id| ==> id[i] == d1[i - |h1| - 1] && id[i] != ':';
    assert forall i :: |h2| < i < |id| ==> id[i] == d2[i - |h2| - 1] && id[i] != ':';
    assert |h1| == |h2|;
    assert h1 == id[..|h1|] == h2;
    assert d1 == id[|h1| + 1..] == d2;
    IntToStringInjective(p1, p2);
  }

  lemma {:induction false} NewAddressIsDistinct(slaves: seq<Slave>, host: string, port: int)
    requires Distinct(slaves) && !Listed(slaves, host, port)
    ensures Distinct(slaves + [NewSlave(host, port)])
  {
    forall i | 0 <= i < |slaves| ensures slaves[i].id != SlaveId(host, port) {
      if slaves[i].id == SlaveId(host, port) {
        SlaveIdInjective(slaves[i].host, slaves[i].port, host, port);
      }
    }
  }

  lemma {:induction false} RemoveKeepsDistinct(slaves: seq<Slave>, id: string)
    requires Distinct(slaves)
    ensures Distinct(Remove(slaves, id)) && forall s :: s in Remove(slaves, id) <==> s in slaves && s.id != id
  {
    if slaves != [] {
      TailIsDistinct(slaves);
      RemoveKeepsDistinct(slaves[1..], id);
      ConsIsDistinct(slaves, Remove(slaves[1..], id));
    }
  }

  lemma TailIsDistinct(slaves: seq<Slave>)
    requires slaves != [] && Distinct(slaves)
    ensures Distinct(slaves[1..]) && forall s :: s in slaves[1..] ==> s.id != slaves[0].id
  {
  }

  lemma ConsIsDistinct(slaves: seq<Slave>, rest: seq<Slave>)
    requires slaves != [] && Distinct(slaves) && Distinct(rest)
    requires forall s :: s in rest ==> s in slaves[1..]
    ensures Distinct([slaves[0]] + rest)
  {
    forall j | 0 <= j < |rest| ensures rest[j].id != slaves[0].id { assert rest[j] in slaves[1..]; }
  }

  lemma {:induction false} SweepKeepsDistinct(slaves: seq<Slave>, now: int, interval: nat)
    requires Distinct(slaves)
    ensures Distinct(Sweep(slaves, now, interval))
    ensures forall s :: s in Sweep(slaves, now, interval) <==> s in slaves && now - s.lastPing <= 3 * interval
  {
    if slaves != [] {
      TailIsDistinct(slaves);
      SweepKeepsDistinct(slaves[1..], now, interval);
      ConsIsDistinct(slaves, Sweep(slaves[1..], now, interval));
    }
  }

  predicate SameAddresses(slaves: seq<Slave>, after: seq<Slave>) {
    && |after| == |slaves|
    && forall i :: 0 <= i < |slaves| ==>
         after[i].id == slaves[i].id && after[i].host == slaves[i].host && after[i].port == slaves[i].port
  }

  /** Changing a record without touching its address keeps the ids distinct. */
  lemma SameAddressKeepsDistinct(slaves: seq<Slave>, after: seq<Slave>)
    requires Distinct(slaves) && SameAddresses(slaves, after)
    ensures Distinct(after)
  {
  }

  lemma UpdatesKeepAddresses(slaves: seq<Slave>, e: Edit, interval: nat)
    requires !e.Adding? && !e.Removing? && !e.Sweeping?
    ensures SameAddresses(slaves, Apply(slaves, e, interval))
  {
  }

  lemma {:induction false} ApplyKeepsDistinct(slaves: seq<Slave>, e: Edit, interval: nat)
    requires Distinct(slaves)
    ensures Distinct(Apply(slaves, e, interval))
  {
    hide Distinct, SameAddresses;
    match e
    case Adding(host, port) =>
      if !Listed(slaves, host, port) { NewAddressIsDistinct(slaves, host, port); }
    case Removing(id) => RemoveKeepsDistinct(slaves, id);
    case Sweeping(now) => SweepKeepsDistinct(slaves, now, interval);
    case _ =>
      UpdatesKeepAddresses(slaves, e, interval);
      SameAddressKeepsDistinct(slaves, Apply(slaves, e, interval));
  }

  lemma RegisterKeepsAddresses(slaves: seq<Slave>, host: string, now: int, sent: bool, offset: int)
    ensures SameAddresses(WithHost(slaves, host), Register(slaves, host, now, sent, offset).0)
  {
  }

  lemma {:induction false} RegisterKeepsDistinct(slaves: seq<Slave>, host: string, now: int, sent: bool, offset: int)
    requires Distinct(slaves)
    ensures Distinct(Register(slaves, host, now, sent, offset).0)
  {
    hide Distinct, SameAddresses, Register;
    if FirstAt(slaves, host) == |slaves| { NewAddressIsDistinct(slaves, host, 0); }
    RegisterKeepsAddresses(slaves, host, now, sent, offset);
    SameAddressKeepsDistinct(WithHost(slaves, host), Register(slaves, host, now, sent, offset).0);
  }

  lemma CaughtUpKeepsDistinct(slaves: seq<Slave>, p: nat, offset: int)
    requires Distinct(slaves)
    ensures Distinct(CaughtUp(slaves, p, offset))
  {
    SameAddressKeepsDistinct(slaves, CaughtUp(slaves, p, offset));
  }

  // ---------------------------------------------------------------- clients

  /** inet_ntoa. */
  function DottedQuad(a: nat, b: nat, c: nat, d: nat): (s: string)
    ensures ':' !in s
  {
    NatToString(a) + "." + NatToString(b) + "." + NatToString(c) + "." + NatToString(d)
  }

  /** The address the server gives a connection (network/tcp_server.cpp). */
  predicate ClientName(name: string) {
    exists a: nat, b: nat, c: nat, d: nat, port: nat ::
      a < 256 && b < 256 && c < 256 && d < 256 && port < 65536 && name == SlaveId(DottedQuad(a, b, c, d), port)
  }

  /** PINGs and acknowledgements come from clients, under their addresses. */
  predicate FromClient(e: Edit) {
    (e.Hearing? ==> ClientName(e.id)) && (e.Acknowledging? ==> ClientName(e.id))
  }

  lemma SlaveIdHasColon(host: string, port: int)
    ensures ':' in SlaveId(host, port)
  {
    assert SlaveId(host, port)[|host|] == ':';
  }

  lemma ClientNameHasColon(name: string)
    requires ClientName(name)
    ensures ':' in name
  {
    var a: nat, b: nat, c: nat, d: nat, port: nat :| name == SlaveId(DottedQuad(a, b, c, d), port);
    SlaveIdHasColon(DottedQuad(a, b, c, d), port);
  }

  /** A record whose host is a client's address has an id that is no client's address. */
  lemma {:induction false} NoClientHasTheId(host: string, port: int, name: string)
    requires ClientName(host) && ClientName(name)
    ensures SlaveId(host, port) != name
  {
    ClientNameHasColon(host);
    var a: nat, b: nat, c: nat, d: nat, p: nat :| name == SlaveId(DottedQuad(a, b, c, d), p);
    if SlaveId(host, port) == name { SlaveIdInjective(host, port, DottedQuad(a, b, c, d), p); }
  }

  /** The records made for connecting clients never have a negative offset. */
  predicate FromZero(slaves: seq<Slave>) {
    forall s :: s in slaves && ClientName(s.host) ==> s.offset >= 0
  }

  lemma AcknowledgedKeepsFromZero(slaves: seq<Slave>, name: string, offset: int)
    requires Distinct(slaves) && FromZero(slaves) && ClientName(name)
    ensures FromZero(Acknowledged(slaves, name, offset))
  {
    var p := FirstNamed(slaves, name);
    if p < |slaves| && ClientName(slaves[p].host) { NoClientHasTheId(slaves[p].host, slaves[p].port, name); }
    hide ClientName;
  }

  lemma {:induction false} ApplyKeepsFromZero(slaves: seq<Slave>, e: Edit, interval: nat)
    requires Distinct(slaves) && FromZero(slaves) && FromClient(e)
    ensures FromZero(Apply(slaves, e, interval))
  {
    hide ClientName, Distinct;
    match e
    case Removing(id) => RemoveKeepsDistinct(slaves, id);
    case Sweeping(now) => SweepKeepsDistinct(slaves, now, interval);
    case Acknowledging(id, offset) => AcknowledgedKeepsFromZero(slaves, id, offset);
    case _ =>
  }

  lemma RegisterKeepsFromZero(slaves: seq<Slave>, host: string, now: int, sent: bool, offset: int)
    requires FromZero(slaves)
    ensures FromZero(Register(slaves, host, now, sent, offset).0)
  {
    hide ClientName;
  }

  lemma CaughtUpKeepsFromZero(slaves: seq<Slave>, p: nat, offset: int)
    requires FromZero(slaves) && offset >= 0
    ensures FromZero(CaughtUp(slaves, p, offset))
  {
    hide ClientName;
  }

  /** While the master's offset is not positive, no client that connects is behind it. */
  lemma NobodyLags(slaves: seq<Slave>, host: string, now: int, sent: bool, offset: int)
    requires FromZero(slaves) && ClientName(host) && offset <= 0
    ensures !Register(slaves, host, now, sent, offset).2
  {
    hide ClientName;
    var s := WithHost(slaves, host)[FirstAt(slaves, host)];
    assert s in slaves || s == NewSlave(host, 0);
  }

  /** Which record the messages of a client at host:port do reach: the one listed for that host and
      port, as addSlave lists it, and no other. */
  lemma {:induction false} ClientMessagesReach(slaves: seq<Slave>, host: string, port: int, now: int, ack: int)
    requires Distinct(slaves)
    ensures var heard, acked := Heard(slaves, SlaveId(host, port), now), Acknowledged(slaves, SlaveId(host, port), ack);
            |heard| == |acked| == |slaves| && forall i :: 0 <= i < |slaves| ==>
              var mine := slaves[i].host == host && slaves[i].port == port;
              && heard[i] == (if mine then slaves[i].(lastPing := now, online := true) else slaves[i])
              && acked[i] == (if mine then slaves[i].(offset := ack) else slaves[i])
  {
    var id := SlaveId(host, port);
    FirstMatchIsOnlyMatch(slaves, id);
    forall i | 0 <= i < |slaves|
      ensures Named(slaves[i], id) <==> slaves[i].host == host && slaves[i].port == port
    {
      if Named(slaves[i], id) { SlaveIdInjective(slaves[i].host, slaves[i].port, host, port); }
    }
  }

  // ---------------------------------------------------------------- what single operations do

  /** addSlave keeps every record and puts a new one, never heard of, behind them; it tells whether
      it did, and does so exactly if the address was not listed. */
  lemma {:induction false} AddAppends(slaves: seq<Slave>, host: string, port: int)
    ensures var (after, added) := Add(slaves, host, port);
            && slaves <= after && (exists s :: s in after && s.host == host && s.port == port)
            && (added <==> forall s :: s in slaves ==> s.host != host || s.port != port)
            && |after| == |slaves| + (if added then 1 else 0)
            && (added ==>
                  var s := after[|slaves|];
                  && s.host == host && s.port == port && s.id == SlaveId(host, port)
                  && !s.online && s.state == Connecting && s.offset == 0 && s.lastPing == 0)
  {
    var (after, added) := Add(slaves, host, port);
    if added {
      assert after[|slaves|] == NewSlave(host, port);
    }
  }

  lemma {:induction false} SweepIsFilter(slaves: seq<Slave>, now: int, interval: nat)
    ensures forall s :: s in Sweep(slaves, now, interval) <==> s in slaves && now - s.lastPing <= 3 * interval
  {
    if slaves != [] { SweepIsFilter(slaves[1..], now, interval); }
  }

  /** A round of pingSlaves: an online record was heard of now, so that it passes health checks for
      two and sweeps for three intervals; one that is offline stays as long as it would have. */
  lemma {:induction false} PingKeepsAlive(slaves: seq<Slave>, i: nat, now: int, later: int, interval: nat)
    requires i < |slaves|
    ensures var s, pinged := slaves[i], Apply(slaves, Pinging(now), interval);
            var p := pinged[i];
            && |pinged| == |slaves| && p.online == s.online && p.offset == s.offset
            && (s.online ==>
                  && p.state == s.state
                  && (Apply(pinged, Checking(later), interval)[i].online <==> later - now <= 2 * interval)
                  && (p in Sweep(pinged, later, interval) <==> later - now <= 3 * interval))
            && (!s.online ==>
                  && p.state == Connecting
                  && (p in Sweep(pinged, later, interval) <==> later - s.lastPing <= 3 * interval))
  {
    SweepIsFilter(Apply(slaves, Pinging(now), interval), later, interval);
  }

  /** A health check takes a record offline exactly if it was online and not heard of for more than
      two intervals, changes nothing else, and drops none: it stays as long as it would have. */
  lemma {:induction false} CheckDropsNone(slaves: seq<Slave>, i: nat, now: int, later: int, interval: nat)
    requires i < |slaves|
    ensures var s, checked := slaves[i], Apply(slaves, Checking(now), interval);
            var c := checked[i];
            && |checked| == |slaves|
            && (c != s <==> s.online && now - s.lastPing > 2 * interval)
            && (c != s ==> !c.online && c.state == Disconnected && c.offset == s.offset)
            && (c in Sweep(checked, later, interval) <==> s in Sweep(slaves, later, interval))
  {
    SweepIsFilter(slaves, later, interval);
    SweepIsFilter(Apply(slaves, Checking(now), interval), later, interval);
  }

  // ---------------------------------------------------------------- consequences

  lemma {:induction false} RemoveConcat(a: seq<Slave>, b: seq<Slave>, id: string)
    ensures Remove(a + b, id) == Remove(a, id) + Remove(b, id)
  {
    if a == [] {
      assert a + b == b;
    } else {
      assert (a + b)[1..] == a[1..] + b;
      RemoveConcat(a[1..], b, id);
    }
  }

  /** removeSlave takes out the one record with the id, or nothing. */
  lemma {:induction false} RemoveDropsOne(slaves: seq<Slave>, p: nat)
    requires Distinct(slaves) && p < |slaves|
    ensures Remove(slaves, slaves[p].id) == slaves[..p] + slaves[p + 1..]
  {
    var s, a, b := slaves[p], slaves[..p], slaves[p + 1..];
    OthersDiffer(slaves, p);
    hide Distinct, Remove;
    RemoveAround(a, s, b);
    assert slaves == a + [s] + b;
  }

  lemma RemoveAround(a: seq<Slave>, s: Slave, b: seq<Slave>)
    requires forall t :: t in a || t in b ==> t.id != s.id
    ensures Remove(a + [s] + b, s.id) == a + b
  {
    hide Remove;
    RemoveConcat(a + [s], b, s.id);
    RemoveLast(a, s, s.id);
    RemoveNothing(a, s.id);
    RemoveNothing(b, s.id);
  }

  lemma OthersDiffer(slaves: seq<Slave>, p: nat)
    requires Distinct(slaves) && p < |slaves|
    ensures forall s :: s in slaves[..p] ==> s.id != slaves[p].id
    ensures forall s :: s in slaves[p + 1..] ==> s.id != slaves[p].id
  {
  }

  lemma SweepNothing(now: int, interval: nat)
    ensures Sweep([], now, interval) == []
  {
  }

  lemma SweepFirst(s: Slave, rest: seq<Slave>, now: int, interval: nat)
    ensures Sweep([s] + rest, now, interval)
         == (if now - s.lastPing > 3 * interval then [] else [s]) + Sweep(rest, now, interval)
  {
    assert ([s] + rest)[1..] == rest;
  }

  lemma {:induction false} SweepConcat(a: seq<Slave>, b: seq<Slave>, now: int, interval: nat)
    ensures Sweep(a + b, now, interval) == Sweep(a, now, interval) + Sweep(b, now, interval)
  {
    hide Sweep;
    if a == [] {
      SweepNothing(now, interval);
      assert a + b == b;
    } else {
      assert a == [a[0]] + a[1..] && a + b == [a[0]] + (a[1..] + b);
      SweepFirst(a[0], a[1..], now, interval);
      SweepFirst(a[0], a[1..] + b, now, interval);
      SweepConcat(a[1..], b, now, interval);
    }
  }

  lemma RemoveLast(slaves: seq<Slave>, s: Slave, id: string)
    ensures Remove(slaves + [s], id) == Remove(slaves, id) + (if s.id == id then [] else [s])
  {
    RemoveConcat(slaves, [s], id);
  }

  lemma SweepLast(slaves: seq<Slave>, s: Slave, now: int, interval: nat)
    ensures Sweep(slaves + [s], now, interval)
         == Sweep(slaves, now, interval) + (if now - s.lastPing > 3 * interval then [] else [s])
  {
    SweepConcat(slaves, [s], now, interval);
  }

  lemma {:induction false} FirstAtIs(slaves: seq<Slave>, host: string, p: nat)
    requires p <= |slaves| && (forall i :: 0 <= i < p ==> slaves[i].host != host)
    requires p < |slaves| ==> slaves[p].host == host
    ensures FirstAt(slaves, host) == p
  {
    if p > 0 { FirstAtIs(slaves[1..], host, p - 1); }
  }

  lemma {:induction false} FirstNamedIs(slaves: seq<Slave>, id: string, p: nat)
    requires p <= |slaves| && (forall i :: 0 <= i < p ==> !Named(slaves[i], id))
    requires p < |slaves| ==> Named(slaves[p], id)
    ensures FirstNamed(slaves, id) == p
  {
    if p > 0 { FirstNamedIs(slaves[1..], id, p - 1); }
  }

  lemma {:induction false} RemoveNothing(slaves: seq<Slave>, id: string)
    requires forall s :: s in slaves ==> s.id != id
    ensures Remove(slaves, id) == slaves
  {
    if slaves != [] { RemoveNothing(slaves[1..], id); }
  }

  /** The loops that stop at the first match miss no record. */
  lemma {:induction false} FirstMatchIsOnlyMatch(slaves: seq<Slave>, id: string)
    requires Distinct(slaves)
    ensures forall i :: 0 <= i < |slaves| ==> (Named(slaves[i], id) <==> i == FirstNamed(slaves, id))
  {
  }

  /** What a whole connection makes of the list. */
  function Connect(slaves: seq<Slave>, host: string, now: int, sent: bool, offset: int): seq<Slave> {
    var (registered, p, lags) := Register(slaves, host, now, sent, offset);
    if lags then CaughtUp(registered, p, offset) else registered
  }

  /** No record is called by a bare address, so the PING and COMMAND_ACK of a client, which are
      looked up by its address, leave the record its connection uses as it is: a fresh one, or the
      one already listed for the address. */
  lemma {:induction false} OwnRecordIsNotFound(
      slaves: seq<Slave>, address: string, now: int, sent: bool, offset: int, later: int, ack: int)
    requires Distinct(slaves)
    ensures var p, after := FirstAt(slaves, address), Connect(slaves, address, now, sent, offset);
            && p < |after| && after[p].host == address
            && Heard(after, address, later)[p] == after[p]
            && Acknowledged(after, address, ack)[p] == after[p]
  {
    ConnectedRecord(slaves, address, now, sent, offset);
    hide Distinct, Connect;
  }

  lemma ConnectKeepsDistinct(slaves: seq<Slave>, host: string, now: int, sent: bool, offset: int)
    requires Distinct(slaves)
    ensures Distinct(Connect(slaves, host, now, sent, offset))
  {
    hide Distinct, Register;
    var registered := Register(slaves, host, now, sent, offset);
    RegisterKeepsDistinct(slaves, host, now, sent, offset);
    CaughtUpKeepsDistinct(registered.0, registered.1, offset);
  }

  lemma ConnectedHost(slaves: seq<Slave>, host: string, now: int, sent: bool, offset: int)
    ensures var p, after := FirstAt(slaves, host), Connect(slaves, host, now, sent, offset);
            p < |after| && after[p].host == host
  {
    hide SlaveId;
  }

  lemma IdIsLonger(host: string, port: int)
    ensures SlaveId(host, port) != host
  {
    assert |SlaveId(host, port)| > |host|;
  }

  lemma ConnectedRecord(slaves: seq<Slave>, address: string, now: int, sent: bool, offset: int)
    requires Distinct(slaves)
    ensures var p, after := FirstAt(slaves, address), Connect(slaves, address, now, sent, offset);
            p < |after| && after[p].host == address && !Named(after[p], address)
  {
    hide Connect, SlaveId;
    var p, after := FirstAt(slaves, address), Connect(slaves, address, now, sent, offset);
    ConnectKeepsDistinct(slaves, address, now, sent, offset);
    ConnectedHost(slaves, address, now, sent, offset);
    IdIsLonger(address, after[p].port);
  }

  /** After a connection whose reply was sent, the record of the host is online and no longer
      behind; no other record has changed. */
  lemma {:induction false} ConnectionCatchesUp(slaves: seq<Slave>, host: string, now: int, offset: int)
    ensures var p, after := FirstAt(slaves, host), Connect(slaves, host, now, true, offset);
            && p < |after| && after[p].host == host && after[p].online && after[p].offset >= offset
            && (forall i :: 0 <= i < |slaves| && i != p ==> after[i] == slaves[i])
            && |slaves| <= |after| <= |slaves| + 1
            && (|after| == |slaves| <==> exists i :: 0 <= i < |slaves| && slaves[i].host == host)
  {
    var p := FirstAt(slaves, host);
    assert p < |slaves| ==> slaves[p].host == host;
  }

  /** What a connection makes of the host's record, whether the reply went out or not: it was heard
      of now, so that it passes sweeps for three intervals; it is online if the reply went out, and
      then not behind; otherwise it is disconnected at the offset it had. The others stay. */
  lemma {:induction false} ConnectionIsHeard(
      slaves: seq<Slave>, host: string, now: int, sent: bool, offset: int, later: int, interval: nat)
    ensures var p, all := FirstAt(slaves, host), WithHost(slaves, host);
            var after := Connect(slaves, host, now, sent, offset);
            && |after| == |all| && p < |all|
            && (forall i :: 0 <= i < |all| && i != p ==> after[i] == all[i])
            && after[p].id == all[p].id && after[p].host == host && after[p].port == all[p].port
            && after[p].lastPing == now && (after[p].online <==> sent)
            && (!sent ==> after[p].state == Disconnected && after[p].offset == all[p].offset)
            && (sent && all[p].offset >= offset ==> after[p].state == Connected && after[p].offset == all[p].offset)
            && (sent && all[p].offset < offset ==> after[p].state == Online && after[p].offset == offset)
            && (after[p] in Sweep(after, later, interval) <==> later - now <= 3 * interval)
  {
    SweepIsFilter(Connect(slaves, host, now, sent, offset), later, interval);
    hide Sweep, SlaveId;
  }

  /** A record from addSlave has never been pinged, so the next sweep drops it unless the clock
      is still within three intervals of its epoch. */
  lemma {:induction false} AddedSlaveIsSwept(slaves: seq<Slave>, host: string, port: int, now: int, interval: nat)
    requires Distinct(slaves) && !Listed(slaves, host, port)
    ensures NewSlave(host, port) in Sweep(Add(slaves, host, port).0, now, interval) <==> now <= 3 * interval
  {
    NewAddressIsDistinct(slaves, host, port);
    SweepKeepsDistinct(slaves + [NewSlave(host, port)], now, interval);
  }
}
