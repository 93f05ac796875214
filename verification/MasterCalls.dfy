/** A call that runs without interruption does what the method of ReplicationManager does: its
    contract names the same functions, and Framed turns the protocol's reports into the class's. */
module MasterCalls {
  import opened ReplicationLog
  import opened SlaveRegistry
  import opened MasterProtocol
  import opened MasterSafety
  import opened MasterProgress
  import opened ReplicationManagers

  predicate LocksFree(m: Master) {
    FreeLock(m, LogLock) && FreeLock(m, SlavesLock) && FreeLock(m, StatsLock)
  }

  /** A thread appends a command while nobody holds the log. */
  lemma AppendBy(m: Master, es: seq<Event>, n: Master, t: nat, c: string) returns (more: seq<Event>, next: Master)
    requires Reached(m, es, n) && t < |n.tasks| && n.tasks[t] == Idle && FreeLock(n, LogLock)
    ensures Reached(m, more, next)
    ensures next == n.(log := Append(n.log, n.offset, c, n.maxLog), offset := n.offset + 1,
                       history := n.history + [c], tasks := n.tasks[t := ToBroadcast(|n.history|)])
  {
    hide Reached;
    more, next := Call(m, es, n, t, ToAppend(c));
    more, next := Go(m, more, next, t, GO);
    assert next.tasks == n.tasks[t := Appending(c)];
    more, next := Go(m, more, next, t, GO);
  }

  /** A thread broadcasts its command while nobody holds the slaves. */
  lemma BroadcastBy(m: Master, es: seq<Event>, n: Master, t: nat) returns (more: seq<Event>, next: Master)
    requires Reached(m, es, n) && t < |n.tasks| && n.tasks[t].ToBroadcast? && FreeLock(n, SlavesLock)
    ensures Reached(m, more, next)
    ensures next == Broadcast(n, n.tasks[t].id).(tasks := n.tasks[t := ToCount(SizeOf(n.history, n.tasks[t].id))])
  {
    hide Reached;
    more, next := Go(m, es, n, t, GO);
    assert next.tasks == n.tasks[t := Broadcasting(n.tasks[t].id)];
    more, next := Go(m, more, next, t, GO);
  }

  /** replicateCommand: the command is logged and broadcast once. */
  lemma {:induction false} ReplicateAlone(m: Master, es: seq<Event>, n: Master, t: nat, c: string)
      returns (more: seq<Event>, next: Master)
    requires Reached(m, es, n) && t < |n.tasks| && n.tasks[t] == Idle && LocksFree(n)
    ensures Reached(m, more, next)
    ensures next == Broadcast(n, |n.history|).(
      log := Append(n.log, n.offset, c, n.maxLog), offset := n.offset + 1, history := n.history + [c],
      stats := Counted(n.stats, |c|))
  {
    hide Reached, Append, Reports;
    more, next := AppendBy(m, es, n, t, c);
    more, next := BroadcastBy(m, more, next, t);
    more, next := CountBy(m, more, next, t);
    assert next.tasks == n.tasks;
  }

  lemma CountBy(m: Master, es: seq<Event>, n: Master, t: nat) returns (more: seq<Event>, next: Master)
    requires Reached(m, es, n) && t < |n.tasks| && n.tasks[t].ToCount? && FreeLock(n, StatsLock)
    ensures Reached(m, more, next)
    ensures next == n.(tasks := n.tasks[t := Idle], stats := Counted(n.stats, n.tasks[t].bytes))
  {
    hide Reached;
    more, next := Go(m, es, n, t, GO);
    assert next.tasks == n.tasks[t := Counting(n.tasks[t].bytes)];
    more, next := Go(m, more, next, t, GO);
  }

  /** handleSlaveConnection: the list becomes what Connect makes of it. */
  lemma {:induction false} ConnectAlone(m: Master, es: seq<Event>, n: Master, t: nat, host: string, input: Input)
      returns (more: seq<Event>, next: Master)
    requires Reached(m, es, n) && t < |n.tasks| && n.tasks[t] == Idle && LocksFree(n) && ClientName(host)
    ensures Reached(m, more, next)
    ensures next == n.(slaves := Connect(n.slaves, host, input.now, input.sent, n.offset))
  {
    hide Reached, Register, CaughtUp, ClientName;
    more, next := Call(m, es, n, t, ToRegister(host));
    more, next := Go(m, more, next, t, input);
    assert next.tasks == n.tasks[t := Registering(host)];
    more, next := Go(m, more, next, t, input);
    if next.tasks[t] != Idle { more, next := SyncBy(m, more, next, t); }
    assert next.tasks == n.tasks;
  }

  lemma SyncBy(m: Master, es: seq<Event>, n: Master, t: nat) returns (more: seq<Event>, next: Master)
    requires Reached(m, es, n) && t < |n.tasks| && n.tasks[t].ToSync? && FreeLock(n, LogLock)
    ensures Reached(m, more, next)
    ensures next == n.(slaves := CaughtUp(n.slaves, n.tasks[t].index, n.offset), tasks := n.tasks[t := Idle])
  {
    hide Reached, CaughtUp;
    more, next := Go(m, es, n, t, GO);
    assert next.tasks == n.tasks[t := SyncingSlave(n.tasks[t].index)];
    more, next := Go(m, more, next, t, GO);
  }

  /** The operations on the list alone. */
  lemma {:induction false} EditAlone(m: Master, es: seq<Event>, n: Master, t: nat, e: Edit)
      returns (more: seq<Event>, next: Master)
    requires Reached(m, es, n) && t < |n.tasks| && n.tasks[t] == Idle && LocksFree(n) && FromClient(e)
    ensures Reached(m, more, next) && next == n.(slaves := Apply(n.slaves, e, n.interval))
  {
    hide Reached, Apply, FromClient;
    more, next := Call(m, es, n, t, ToEdit(e));
    more, next := Go(m, more, next, t, GO);
    assert next.tasks == n.tasks[t := Editing(e)];
    more, next := Go(m, more, next, t, GO);
    assert next.tasks == n.tasks;
  }

  /** handleSyncRequest: the answer is HandleSyncRequest's. */
  lemma {:induction false} AnswerAlone(m: Master, es: seq<Event>, n: Master, t: nat, from: int)
      returns (more: seq<Event>, next: Master)
    requires Reached(m, es, n) && t < |n.tasks| && n.tasks[t] == Idle && LocksFree(n)
    ensures Reached(m, more, next) && next == n.(answers := n.answers + [SyncAnswer(n.offset - from)])
  {
    hide Reached, SyncAnswer;
    more, next := Call(m, es, n, t, ToAnswer(from));
    more, next := Go(m, more, next, t, GO);
    assert next.tasks == n.tasks[t := Answering(from)];
    more, next := Go(m, more, next, t, GO);
    assert next.tasks == n.tasks;
  }

  /** handleNewSlaveConnections: the count is HandleNewSlaveConnections's. */
  lemma {:induction false} CountOnlineAlone(m: Master, es: seq<Event>, n: Master, t: nat)
      returns (more: seq<Event>, next: Master)
    requires Reached(m, es, n) && t < |n.tasks| && n.tasks[t] == Idle && LocksFree(n)
    ensures Reached(m, more, next) && next == n.(stats := n.stats.(online := OnlineCount(n.slaves)))
  {
    hide Reached, OnlineCount;
    more, next := Call(m, es, n, t, ToCountOnline);
    more, next := Go(m, more, next, t, GO);
    assert next.tasks == n.tasks[t := CountingOnline];
    more, next := Go(m, more, next, t, GO);
    assert next.tasks == n.tasks;
  }

  /** updateSlaveStats: the statistics are UpdateSlaveStats's. */
  lemma {:induction false} LagAlone(m: Master, es: seq<Event>, n: Master, t: nat)
      returns (more: seq<Event>, next: Master)
    requires Reached(m, es, n) && t < |n.tasks| && n.tasks[t] == Idle && LocksFree(n)
    ensures Reached(m, more, next)
    ensures next == n.(stats := n.stats.(online := OnlineCount(n.slaves),
                                         lag := MeanLag(TotalLag(n.slaves, n.offset), OnlineCount(n.slaves))))
  {
    hide Reached, OnlineCount, TotalLag, MeanLag;
    more, next := Call(m, es, n, t, ToSumLag);
    more, next := Go(m, more, next, t, GO);
    assert next.tasks == n.tasks[t := SummingLag];
    more, next := Go(m, more, next, t, GO);
    assert next.tasks == n.tasks[t := ToPublishLag(OnlineCount(n.slaves), TotalLag(n.slaves, n.offset))];
    more, next := PublishBy(m, more, next, t);
    assert next.tasks == n.tasks;
  }

  lemma PublishBy(m: Master, es: seq<Event>, n: Master, t: nat) returns (more: seq<Event>, next: Master)
    requires Reached(m, es, n) && t < |n.tasks| && n.tasks[t].ToPublishLag? && FreeLock(n, StatsLock)
    ensures Reached(m, more, next)
    ensures var task := n.tasks[t];
            next == n.(stats := n.stats.(online := task.online, lag := MeanLag(task.total, task.online)),
                       tasks := n.tasks[t := Idle])
  {
    hide Reached, MeanLag;
    more, next := Go(m, es, n, t, GO);
    assert next.tasks == n.tasks[t := PublishingLag(n.tasks[t].online, n.tasks[t].total)];
    more, next := Go(m, more, next, t, GO);
  }

  /** The places in the history of the entries a drain broadcasts, first being the front's. */
  function DrainIds(log: seq<LogEntry>, current: int, first: int): seq<int> {
    if log == [] then []
    else if log[0].offset > current then [first] + DrainIds(log[1..], log[0].offset, first + 1)
    else DrainIds(log[1..], current, first + 1)
  }

  /** The entry lies above the offset and above all entries in front of it. */
  predicate Highest(log: seq<LogEntry>, current: int, i: int) {
    && 0 <= i < |log| && log[i].offset > current
    && forall j :: 0 <= j < i ==> log[j].offset < log[i].offset
  }

  lemma HighestStep(log: seq<LogEntry>, current: int, i: int)
    requires log != [] && 0 < i < |log|
    ensures var last := if log[0].offset > current then log[0].offset else current;
            Highest(log, current, i) <==> Highest(log[1..], last, i - 1)
  {
    var last := if log[0].offset > current then log[0].offset else current;
    if Highest(log[1..], last, i - 1) {
      assert forall j :: 1 <= j < i ==> log[j] == log[1..][j - 1];
    }
  }

  lemma PrefixIncreases(first: int, rest: seq<int>)
    requires forall x :: x in rest ==> first < x
    requires forall i, j :: 0 <= i < j < |rest| ==> rest[i] < rest[j]
    ensures var all := [first] + rest;
            (forall x :: x in all ==> first <= x) && forall i, j :: 0 <= i < j < |all| ==> all[i] < all[j]
  {
    assert forall j :: 0 <= j < |rest| ==> rest[j] in rest;
  }

  lemma {:induction false} DrainIdsIncrease(log: seq<LogEntry>, current: int, first: int)
    ensures var ids := DrainIds(log, current, first);
            && (forall x :: x in ids ==> first <= x)
            && (forall i, j :: 0 <= i < j < |ids| ==> ids[i] < ids[j])
  {
    if log != [] {
      hide DrainIds, Drain, AllReports, Reports;
      var above := log[0].offset > current;
      var last := if above then log[0].offset else current;
      DrainIdsIncrease(log[1..], last, first + 1);
      DrainIdsStep(log, current, first, []);
      if above { PrefixIncreases(first, DrainIds(log[1..], last, first + 1)); }
    }
  }

  lemma {:induction false} DrainIdsAreHighest(log: seq<LogEntry>, current: int, first: int, x: int)
    ensures x in DrainIds(log, current, first) <==> Highest(log, current, x - first)
  {
    if log != [] {
      var above := log[0].offset > current;
      var last := if above then log[0].offset else current;
      DrainIdsAreHighest(log[1..], last, first + 1, x);
      DrainIdsStep(log, current, first, []);
      if 0 < x - first < |log| { HighestStep(log, current, x - first); }
    }
  }

  lemma {:induction false} DrainEndsHighest(log: seq<LogEntry>, current: int)
    ensures var last := Drain(log, current).1;
            && current <= last && (forall i :: 0 <= i < |log| ==> log[i].offset <= last)
            && (last == current || exists i :: 0 <= i < |log| && log[i].offset == last)
  {
    if log != [] {
      DrainEndsHighest(log[1..], if log[0].offset > current then log[0].offset else current);
      DrainLast(log, current);
    }
  }

  /** A drain broadcasts, in log order and once each, exactly the entries that lie above the offset
      and above all entries in front of them; it ends with the highest offset it has seen. */
  lemma {:induction false} DrainTakesTheHighest(log: seq<LogEntry>, current: int, first: int)
    ensures var ids := DrainIds(log, current, first);
            && (forall x :: x in ids <==> Highest(log, current, x - first))
            && (forall i, j :: 0 <= i < j < |ids| ==> ids[i] < ids[j])
    ensures var last := Drain(log, current).1;
            && current <= last && (forall i :: 0 <= i < |log| ==> log[i].offset <= last)
            && (last == current || exists i :: 0 <= i < |log| && log[i].offset == last)
  {
    forall x ensures x in DrainIds(log, current, first) <==> Highest(log, current, x - first) {
      DrainIdsAreHighest(log, current, first, x);
    }
    DrainIdsIncrease(log, current, first);
    DrainEndsHighest(log, current);
  }

  lemma DrainLast(log: seq<LogEntry>, current: int)
    requires log != []
    ensures var mid := if log[0].offset > current then log[0].offset else current;
            var end := Drain(log[1..], mid).1;
            && Drain(log, current).1 == end
            && ((forall i :: 0 <= i < |log| - 1 ==> log[1..][i].offset <= end) && mid <= end ==>
                  forall i :: 0 <= i < |log| ==> log[i].offset <= end)
            && ((end == mid || exists i :: 0 <= i < |log| - 1 && log[1..][i].offset == end) ==>
                  end == current || exists i :: 0 <= i < |log| && log[i].offset == end)
  {
    var mid := if log[0].offset > current then log[0].offset else current;
    var end := Drain(log[1..], mid).1;
    assert forall i :: 1 <= i < |log| ==> log[i] == log[1..][i - 1];
    if i :| 0 <= i < |log| - 1 && log[1..][i].offset == end { assert log[i + 1].offset == end; }
  }

  function AllReports(slaves: seq<Slave>, ids: seq<int>): seq<Report> {
    if ids == [] then [] else Reports(slaves, ids[0]) + AllReports(slaves, ids[1..])
  }

  /** processReplicationQueue on any log and offset, silent or not: what Drain says is broadcast in
      order, the log is empty and the offset is Drain's. */
  lemma {:induction false} DrainAlone(m: Master, es: seq<Event>, n: Master, t: nat)
      returns (more: seq<Event>, next: Master)
    requires Reached(m, es, n) && t < |n.tasks| && n.tasks[t] == Idle && LocksFree(n)
    ensures Reached(m, more, next)
    ensures var ids := DrainIds(n.log, n.offset, |n.history| - |n.log|);
            next == n.(log := [], offset := Drain(n.log, n.offset).1, broadcasts := n.broadcasts + ids,
                       reports := n.reports + AllReports(n.slaves, ids))
  {
    hide Reached;
    more, next := Call(m, es, n, t, ToDrain);
    more, next := Go(m, more, next, t, GO);
    if n.log == [] {
      assert n.broadcasts + [] == n.broadcasts && n.reports + [] == n.reports;
    } else {
      assert next.tasks == n.tasks[t := Draining(n.offset)];
      more, next := DrainBy(m, more, next, t);
    }
    assert next.tasks == n.tasks;
  }

  lemma DrainIdsStep(log: seq<LogEntry>, current: int, first: int, slaves: seq<Slave>)
    requires log != []
    ensures var above := log[0].offset > current;
            var last := if above then log[0].offset else current;
            var rest := DrainIds(log[1..], last, first + 1);
            && Drain(log, current).1 == Drain(log[1..], last).1
            && DrainIds(log, current, first) == (if above then [first] else []) + rest
            && AllReports(slaves, DrainIds(log, current, first))
               == (if above then Reports(slaves, first) else []) + AllReports(slaves, rest)
  {
    hide Reports;
    if log[0].offset > current {
      var rest := DrainIds(log[1..], log[0].offset, first + 1);
      assert ([first] + rest)[1..] == rest;
    }
  }

  /** A drain broadcasts the front entry, while no other thread holds the slaves. */
  lemma RebroadcastBy(m: Master, es: seq<Event>, n: Master, t: nat) returns (more: seq<Event>, next: Master)
    requires Reached(m, es, n) && t < |n.tasks| && n.tasks[t].ToRebroadcast? && n.log != []
    requires forall u :: 0 <= u < |n.tasks| && u != t ==> !Holds(n.tasks[u], SlavesLock)
    ensures Reached(m, more, next)
    ensures next == Broadcast(n, |n.history| - |n.log|).(
      log := n.log[1..], tasks := n.tasks[t := Draining(n.log[0].offset)])
  {
    hide Reached, Reports;
    more, next := Go(m, es, n, t, GO);
    assert next.tasks == n.tasks[t := Rebroadcasting(n.tasks[t].current)];
    hide Holds, FreeLock;
    more, next := Go(m, more, next, t, GO);
  }

  /** One turn of the drain's loop. */
  lemma PopBy(m: Master, es: seq<Event>, n: Master, t: nat) returns (more: seq<Event>, next: Master)
    requires Reached(m, es, n) && t < |n.tasks| && n.tasks[t].Draining? && n.log != []
    requires forall u :: 0 <= u < |n.tasks| && u != t ==> !Holds(n.tasks[u], SlavesLock)
    ensures Reached(m, more, next)
    ensures var above, front := n.log[0].offset > n.tasks[t].current, n.log[0].offset;
            next == (if above then Broadcast(n, |n.history| - |n.log|) else n).(
              log := n.log[1..], tasks := n.tasks[t := Draining(if above then front else n.tasks[t].current)])
  {
    hide Reached, Reports, Holds, FreeLock;
    var current := n.tasks[t].current;
    more, next := Go(m, es, n, t, GO);
    if n.log[0].offset > current {
      assert next.tasks == n.tasks[t := ToRebroadcast(current)];
      hide Work, Wants;
      more, next := RebroadcastBy(m, more, next, t);
    } else {
      assert n.tasks == n.tasks[t := Draining(current)];
    }
  }

  lemma DrainEnds(m: Master, es: seq<Event>, n: Master, t: nat) returns (more: seq<Event>, next: Master)
    requires Reached(m, es, n) && t < |n.tasks| && n.tasks[t].Draining? && n.log == []
    ensures Reached(m, more, next)
    ensures next == n.(offset := n.tasks[t].current, tasks := n.tasks[t := Idle])
  {
    hide Reached, Holds, FreeLock;
    more, next := Go(m, es, n, t, GO);
  }

  lemma DrainBy(m: Master, es: seq<Event>, n: Master, t: nat) returns (more: seq<Event>, next: Master)
    requires Reached(m, es, n) && t < |n.tasks| && n.tasks[t].Draining?
    requires forall u :: 0 <= u < |n.tasks| && u != t ==> !Holds(n.tasks[u], SlavesLock)
    ensures Reached(m, more, next)
    ensures var current := n.tasks[t].current;
            var ids := DrainIds(n.log, current, |n.history| - |n.log|);
            next == n.(log := [], offset := Drain(n.log, current).1, broadcasts := n.broadcasts + ids,
                       reports := n.reports + AllReports(n.slaves, ids), tasks := n.tasks[t := Idle])
    decreases |n.log|
  {
    hide Reached, Reports, Holds;
    if n.log == [] {
      more, next := DrainEnds(m, es, n, t);
      assert n.broadcasts + [] == n.broadcasts && n.reports + [] == n.reports;
    } else {
      hide Drain, DrainIds, AllReports;
      var first := |n.history| - |n.log|;
      DrainIdsStep(n.log, n.tasks[t].current, first, n.slaves);
      var some, mid := PopBy(m, es, n, t);
      var rest := DrainIds(mid.log, mid.tasks[t].current, first + 1);
      more, next := DrainBy(m, some, mid, t);
      assert mid.tasks[t := Idle] == n.tasks[t := Idle];
      Appended(n.broadcasts, mid.broadcasts, rest);
      Appended(n.reports, mid.reports, AllReports(n.slaves, rest));
    }
  }

  lemma Appended<T>(before: seq<T>, after: seq<T>, rest: seq<T>)
    requires before <= after
    ensures after + rest == before + (after[|before|..] + rest)
  {
  }

  // ---------------------------------------------------------------- the class's reports

  /** The protocol's reports as the class makes them: the command's place replaced by its frame. */
  function Framed(history: seq<string>, reports: seq<Report>): seq<FramedReport>
    requires forall r :: r in reports ==> 0 <= r.command < |history|
  {
    if reports == [] then []
    else [FramedReport(reports[0].slave, Frame(history[reports[0].command]))] + Framed(history, reports[1..])
  }

  lemma FramedFirst(history: seq<string>, first: Report, rest: seq<Report>)
    requires 0 <= first.command < |history| && forall r :: r in rest ==> 0 <= r.command < |history|
    ensures forall r :: r in [first] + rest ==> 0 <= r.command < |history|
    ensures Framed(history, [first] + rest)
         == [FramedReport(first.slave, Frame(history[first.command]))] + Framed(history, rest)
  {
    hide Frame;
    assert ([first] + rest)[1..] == rest;
  }

  lemma {:induction false} FramedConcat(history: seq<string>, a: seq<Report>, b: seq<Report>)
    requires forall r :: r in a || r in b ==> 0 <= r.command < |history|
    ensures forall r :: r in a + b ==> 0 <= r.command < |history|
    ensures Framed(history, a + b) == Framed(history, a) + Framed(history, b)
  {
    if a == [] {
      assert a + b == b;
    } else {
      hide Framed, Frame;
      assert a == [a[0]] + a[1..] && a + b == [a[0]] + (a[1..] + b);
      FramedConcat(history, a[1..], b);
      FramedFirst(history, a[0], a[1..]);
      FramedFirst(history, a[0], a[1..] + b);
    }
  }

  /** A longer history names the same commands. */
  lemma {:induction false} FramedGrows(history: seq<string>, more: seq<string>, reports: seq<Report>)
    requires forall r :: r in reports ==> 0 <= r.command < |history|
    ensures Framed(history + more, reports) == Framed(history, reports)
  {
    if reports != [] {
      assert reports[0] in reports;
      FramedGrows(history, more, reports[1..]);
    }
  }

  /** What the protocol reports for a broadcast is what ReplicateToSlaves reports. */
  lemma {:induction false} ReportsAreFramed(slaves: seq<Slave>, history: seq<string>, id: int)
    requires 0 <= id < |history|
    ensures forall r :: r in Reports(slaves, id) ==> 0 <= r.command < |history|
    ensures Framed(history, Reports(slaves, id)) == FramedReports(slaves, Frame(history[id]))
  {
    ReportsName(slaves, id);
    if slaves != [] {
      ReportsAreFramed(slaves[1..], history, id);
      var first := if slaves[0].online then [Report(slaves[0].id, id)] else [];
      FramedConcat(history, first, Reports(slaves[1..], id));
    }
  }

  /** A whole drain likewise reports what ProcessReplicationQueue does, on any offset. */
  lemma {:induction false} DrainIsFramed(slaves: seq<Slave>, history: seq<string>, log: seq<LogEntry>, current: int)
    requires TailOf(history, log)
    ensures var reports := AllReports(slaves, DrainIds(log, current, |history| - |log|));
            && (forall r :: r in reports ==> 0 <= r.command < |history|)
            && Framed(history, reports) == AllFramedReports(slaves, Drain(log, current).0)
    decreases |log|
  {
    if log != [] {
      var first, above := |history| - |log|, log[0].offset > current;
      var last := if above then log[0].offset else current;
      DrainIsFramed(slaves, history, log[1..], last);
      DrainIdsStep(log, current, first, slaves);
      DrainStep(slaves, log, current);
      hide DrainIds, Drain, AllReports, AllFramedReports, Reports, FramedReports, Framed, Frame;
      if above {
        ReportsAreFramed(slaves, history, first);
        FramedConcat(history, Reports(slaves, first), AllReports(slaves, DrainIds(log[1..], last, first + 1)));
      }
    }
  }

  /** The calls that broadcast, run without interruption, report exactly what the methods
      ReplicateCommand and ProcessReplicationQueue report. */
  lemma {:induction false} CallsReportAsTheClass(n: Master, c: string)
    requires Recorded(n)
    ensures var history := n.history + [c];
            var reports := Reports(n.slaves, |n.history|);
            && (forall r :: r in n.reports + reports ==> 0 <= r.command < |history|)
            && Framed(history, n.reports + reports)
               == Framed(n.history, n.reports) + FramedReports(n.slaves, Frame(c))
    ensures var reports := AllReports(n.slaves, DrainIds(n.log, n.offset, |n.history| - |n.log|));
            && (forall r :: r in n.reports + reports ==> 0 <= r.command < |n.history|)
            && Framed(n.history, n.reports + reports)
               == Framed(n.history, n.reports) + AllFramedReports(n.slaves, Drain(n.log, n.offset).0)
  {
    ReportsAreFramed(n.slaves, n.history + [c], |n.history|);
    FramedGrows(n.history, [c], n.reports);
    FramedConcat(n.history + [c], n.reports, Reports(n.slaves, |n.history|));
    DrainIsFramed(n.slaves, n.history, n.log, n.offset);
    FramedConcat(n.history, n.reports, AllReports(n.slaves, DrainIds(n.log, n.offset, |n.history| - |n.log|)));
  }
}
