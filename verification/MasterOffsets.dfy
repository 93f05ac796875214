/** What setReplicationOffset does from outside: exactly which offsets make commands go out twice,
    and exactly which can bring the master to a standstill. */
module MasterOffsets {
  import opened Wrappers
  import opened ReplicationLog
  import opened SlaveRegistry
  import opened MasterProtocol
  import opened MasterSafety
  import opened MasterProgress
  import opened MasterCalls

  /** Calls are under way and none of them can take a step. */
  predicate Stuck(m: Master) {
    !AllIdle(m) && forall t: nat :: t < |m.tasks| ==> !Enabled(m, t)
  }

  predicate AtMost(log: seq<LogEntry>, offset: int) {
    forall i :: 0 <= i < |log| ==> log[i].offset <= offset
  }

  // ---------------------------------------------------------------- harmless offsets

  /** No drain broadcasts, and none will while the offset is left alone. */
  predicate Silent(m: Master) {
    && Mutex(m) && NoRebroadcast(m) && AtMost(m.log, m.offset)
    && forall t :: 0 <= t < |m.tasks| && m.tasks[t].Draining? ==> AtMost(m.log, m.tasks[t].current)
  }

  /** The offset is never set below that of an entry in the log. */
  predicate Harmless(m: Master, es: seq<Event>)
    requires Legal(m, es)
    decreases |es|
  {
    es == [] || ((es[0].SetOffset? ==> AtMost(m.log, es[0].value)) && Harmless(After(m, es[0]), es[1..]))
  }

  lemma AppendIsAtMost(log: seq<LogEntry>, offset: int, command: string, max: nat)
    requires AtMost(log, offset)
    ensures AtMost(Append(log, offset, command, max), offset + 1)
  {
    TrimIsTail(log + [LogEntry(offset, command)], max);
  }

  lemma WorkIsSilent(m: Master, task: Task, input: Input)
    requires AtMost(m.log, m.offset) && (task.Draining? ==> AtMost(m.log, task.current))
    requires !task.ToRebroadcast? && !task.Rebroadcasting?
    ensures var (n, next) := Work(m, task, input);
            && AtMost(n.log, n.offset) && (next.Draining? ==> AtMost(n.log, next.current))
            && !next.ToRebroadcast? && !next.Rebroadcasting?
            && (!Holds(task, LogLock) ==> n.log == m.log)
            && (task.Draining? ==> n.log == m.log || n.log == m.log[1..])
  {
    hide Register, CaughtUp, Apply, Append, Reports;
    if task.Appending? { AppendIsAtMost(m.log, m.offset, task.command, m.maxLog); }
  }

  lemma {:induction false} SilentKept(m: Master, e: Event)
    requires Silent(m) && Allowed(m, e) && (e.SetOffset? ==> AtMost(m.log, e.value))
    ensures Silent(After(m, e))
  {
    MutexKept(m, e);
    if e.Proceed? {
      var task := m.tasks[e.thread];
      WorkIsSilent(m, task, e.input);
      if Holds(task, LogLock) {
        assert forall u :: 0 <= u < |m.tasks| && m.tasks[u].Draining? ==> Holds(m.tasks[u], LogLock);
      }
    }
    hide AtMost, Mutex, Work, Wants, FreeLock;
  }

  /** As long as the offset is never set below that of an entry in the log, nothing is broadcast
      twice and the calls under way are never stuck. */
  lemma {:induction false} HarmlessOffsets(m: Master, es: seq<Event>)
    requires Silent(m) && OnceOrOwed(m) && NoDuplicates(m) && Distinct(m.slaves)
    requires Legal(m, es) && Harmless(m, es)
    ensures var n := End(m, es);
            Silent(n) && OnceOrOwed(n) && NoDuplicates(n) && Distinct(n.slaves) && !Stuck(n)
    decreases |es|
  {
    hide OnceOrOwed, NoDuplicates, Distinct;
    if es == [] {
      if !AllIdle(m) { var t := NoDeadlock(m); }
    } else {
      SilentKept(m, es[0]);
      OnceKept(m, es[0]);
      NoDuplicatesKept(m, es[0]);
      DistinctKept(m, es[0]);
      HarmlessOffsets(After(m, es[0]), es[1..]);
    }
  }

  lemma UndisturbedIsHarmless(m: Master, es: seq<Event>)
    requires Legal(m, es) && Undisturbed(es)
    ensures Harmless(m, es)
    decreases |es|
  {
    if es != [] {
      assert !es[0].SetOffset?;
      assert forall i :: 0 <= i < |es| - 1 ==> es[1..][i] == es[i + 1];
      UndisturbedIsHarmless(After(m, es[0]), es[1..]);
    }
  }

  /** A log that may hold nothing makes every offset harmless. */
  lemma {:induction false} NoLogIsHarmless(m: Master, es: seq<Event>)
    requires m.maxLog == 0 && m.log == [] && Legal(m, es)
    ensures Harmless(m, es)
    decreases |es|
  {
    if es != [] {
      if es[0].Proceed? && m.tasks[es[0].thread].Appending? {
        TrimIsTail(m.log + [LogEntry(m.offset, m.tasks[es[0].thread].command)], 0);
      }
      NoLogIsHarmless(After(m, es[0]), es[1..]);
    }
  }

  lemma InvIsSilent(m: Master)
    requires Inv(m)
    ensures Silent(m)
  {
  }

  // ---------------------------------------------------------------- one thread

  lemma {:induction false} LoneThreadNeverStuck(m: Master, es: seq<Event>)
    requires |m.tasks| <= 1 && Legal(m, es)
    ensures !Stuck(End(m, es))
    decreases |es|
  {
    if es != [] { LoneThreadNeverStuck(After(m, es[0]), es[1..]); }
    else if |m.tasks| == 1 {
      OwnLocks(m.tasks[0]);
      assert m.tasks[0] != Idle ==> Enabled(m, 0);
    }
  }

  lemma OwnLocks(task: Task)
    ensures Wants(task).Some? ==> !Holds(task, Wants(task).value)
  {
  }

  // ---------------------------------------------------------------- offsets set too low

  /** Some entry in the log lies above the offset. */
  predicate TooLow(m: Master, value: int) {
    m.log != [] && value < |m.history| - 1
  }

  lemma TooLowMeans(m: Master, value: int)
    requires Logged(m.history, m.log, m.offset, m.maxLog)
    ensures TooLow(m, value) <==> !AtMost(m.log, value)
  {
    if TooLow(m, value) { assert m.log[|m.log| - 1].offset == |m.history| - 1; }
  }

  /** An offset set from outside makes the drain broadcast again exactly when it lies below the
      newest entry's. */
  lemma {:induction false} SetOffsetRebroadcasts(m: Master, value: int)
    requires Inv(m) && m.log != []
    ensures var n := After(m, SetOffset(value)); Drain(n.log, n.offset).0 != [] <==> value < |m.history| - 1
  {
    DrainIsSilent(m.log, value);
    TooLowMeans(m, value);
  }

  /** Outside any call, an offset that is not too low leaves everything as ExactlyOnce and
      NoDeadlock have it. */
  lemma HighOffsetIsHarmless(m: Master, value: int, es: seq<Event>)
    requires Inv(m) && AllIdle(m) && !TooLow(m, value)
    requires Legal(m.(offset := value), es) && Undisturbed(es)
    ensures AllDifferent(End(m.(offset := value), es).broadcasts) && !Stuck(End(m.(offset := value), es))
  {
    var n := m.(offset := value);
    TooLowMeans(m, value);
    InvIsSilent(m);
    OnlyOffsetKeepsOnce(m, n);
    UndisturbedIsHarmless(n, es);
    HarmlessOffsets(n, es);
  }

  lemma {:induction false} DrainIdsAre(log: seq<LogEntry>, current: int, first: int)
    ensures forall id :: id in DrainIds(log, current, first) ==> first <= id < first + |log|
    ensures DrainIds(log, current, first) == [] <==> AtMost(log, current)
  {
    if log != [] {
      var above := log[0].offset > current;
      DrainIdsAre(log[1..], if above then log[0].offset else current, first + 1);
      assert forall i :: 1 <= i < |log| ==> log[i] == log[1..][i - 1];
      assert forall i :: 0 <= i < |log| - 1 ==> log[1..][i] == log[i + 1];
    }
  }

  lemma IdleOwesNothing(m: Master, id: int)
    requires OnceOrOwed(m) && AllIdle(m) && 0 <= id < |m.history|
    ensures id in m.broadcasts
  {
    assert forall t :: 0 <= t < |m.tasks| ==> !OwedBy(m, id, t);
  }

  /** What a drain after the offset was set too low broadcasts first has been broadcast before. */
  lemma FirstRepeated(m: Master, value: int)
    requires Inv(m) && AllIdle(m) && TooLow(m, value)
    ensures var ids := DrainIds(m.log, value, |m.history| - |m.log|); ids != [] && ids[0] in m.broadcasts
  {
    TooLowMeans(m, value);
    DrainIdsAre(m.log, value, |m.history| - |m.log|);
    var ids := DrainIds(m.log, value, |m.history| - |m.log|);
    assert ids[0] in ids;
    IdleOwesNothing(m, ids[0]);
  }

  lemma ReachedAtOnce(m: Master)
    ensures Reached(m, [], m)
  {
  }

  lemma IdleIsFree(m: Master)
    requires AllIdle(m)
    ensures LocksFree(m)
  {
  }

  lemma DrainRepeats(m: Master, value: int) returns (es: seq<Event>)
    requires Inv(m) && AllIdle(m) && |m.tasks| >= 1 && TooLow(m, value)
    ensures Legal(m.(offset := value), es) && Undisturbed(es)
    ensures !AllDifferent(End(m.(offset := value), es).broadcasts)
  {
    hide LocksFree, Reached, Inv, DrainIds, AllDifferent, Drain, AllReports;
    var n, next := m.(offset := value), m;
    ReachedAtOnce(n);
    FirstRepeated(m, value);
    IdleIsFree(n);
    es, next := DrainAlone(n, [], n, 0);
    ReachedMeans(n, es, next);
    RepeatedElement(m.broadcasts, DrainIds(m.log, value, |m.history| - |m.log|));
  }

  lemma RepeatedElement<T>(a: seq<T>, b: seq<T>)
    requires b != [] && b[0] in a
    ensures !AllDifferent(a + b)
  {
    var i :| 0 <= i < |a| && a[i] == b[0];
    assert (a + b)[i] == (a + b)[|a|];
  }

  /** Exactly the offsets below the newest entry's, on a log that is not empty, let a command be
      broadcast twice. */
  lemma {:induction false} OffsetRepeatsBroadcasts(m: Master, value: int)
    requires Inv(m) && AllIdle(m)
    ensures var n := m.(offset := value);
            (exists es :: Legal(n, es) && Undisturbed(es) && !AllDifferent(End(n, es).broadcasts))
            <==> |m.tasks| >= 1 && m.log != [] && value < |m.history| - 1
  {
    var n := m.(offset := value);
    if |m.tasks| >= 1 && TooLow(m, value) {
      var es := DrainRepeats(m, value);
    } else {
      forall es: seq<Event> | Legal(n, es) && Undisturbed(es) ensures AllDifferent(End(n, es).broadcasts) {
        if !TooLow(m, value) { HighOffsetIsHarmless(m, value, es); }
      }
    }
  }

  // ---------------------------------------------------------------- the deadlock

  /** A drain gets as far as waiting for the slaves, the log in its hands. */
  lemma DrainUntilAbove(m: Master, es: seq<Event>, n: Master, t: nat) returns (more: seq<Event>, next: Master)
    requires Reached(m, es, n) && t < |n.tasks| && n.tasks[t].Draining? && !AtMost(n.log, n.tasks[t].current)
    ensures Reached(m, more, next)
    ensures next == n.(log := next.log, tasks := n.tasks[t := ToRebroadcast(n.tasks[t].current)])
    decreases |n.log|
  {
    hide Reached, Holds, FreeLock;
    var current := n.tasks[t].current;
    more, next := Go(m, es, n, t, GO);
    if n.log[0].offset <= current {
      assert next.tasks == n.tasks;
      var i :| 0 <= i < |n.log| && n.log[i].offset > current;
      assert n.log[1..][i - 1].offset > current;
      more, next := DrainUntilAbove(m, more, next, t);
    }
  }

  /** A sweep late enough drops every record. */
  lemma {:induction false} LateSweep(slaves: seq<Slave>, interval: nat) returns (now: int)
    ensures forall later :: later >= now ==> Sweep(slaves, later, interval) == []
  {
    now := 0;
    if slaves != [] {
      var rest := LateSweep(slaves[1..], interval);
      var mine := slaves[0].lastPing + 3 * interval + 1;
      now := if rest > mine then rest else mine;
    }
  }

  /** The address of some client. */
  function SomeClient(): (name: string)
    ensures ClientName(name)
  {
    SlaveId(DottedQuad(127, 0, 0, 1), 40000)
  }

  /** A client connects to a master without slaves and gets as far as waiting for the log, the
      slaves in its hands. */
  lemma ConnectionWaits(m: Master, es: seq<Event>, n: Master, t: nat, input: Input)
      returns (more: seq<Event>, next: Master)
    requires Reached(m, es, n) && t < |n.tasks| && n.tasks[t] == Idle && FreeLock(n, SlavesLock)
    requires n.slaves == [] && n.offset > 0 && input.sent
    ensures Reached(m, more, next)
    ensures next.tasks == n.tasks[t := ToSync(0)]
  {
    hide Reached, ClientName, SomeClient;
    var host := SomeClient();
    more, next := Call(m, es, n, t, ToRegister(host));
    more, next := Go(m, more, next, t, input);
    assert next.tasks == n.tasks[t := Registering(host)];
    FirstToRegister(host, input, n.offset);
    hide FreeLock, Holds, Register;
    more, next := Go(m, more, next, t, input);
  }

  lemma FirstToRegister(host: string, input: Input, offset: int)
    requires offset > 0 && input.sent
    ensures var r := Register([], host, input.now, input.sent, offset); r.1 == 0 && r.2
  {
  }

  lemma DrainWaits(m: Master, es: seq<Event>, n: Master, t: nat) returns (more: seq<Event>, next: Master)
    requires Reached(m, es, n) && t < |n.tasks| && n.tasks[t] == Idle && FreeLock(n, LogLock)
    requires !AtMost(n.log, n.offset)
    ensures Reached(m, more, next)
    ensures next == n.(log := next.log, tasks := n.tasks[t := ToRebroadcast(n.offset)])
  {
    hide Reached;
    more, next := Call(m, es, n, t, ToDrain);
    more, next := Go(m, more, next, t, GO);
    assert next.tasks == n.tasks[t := Draining(n.offset)];
    more, next := DrainUntilAbove(m, more, next, t);
  }

  lemma CrossedAreStuck(m: Master, t: nat, u: nat)
    requires t < |m.tasks| && u < |m.tasks| && m.tasks[t].ToRebroadcast? && m.tasks[u].ToSync?
    requires forall w :: 0 <= w < |m.tasks| && w != t && w != u ==> m.tasks[w] == Idle
    ensures Stuck(m)
  {
    assert Holds(m.tasks[t], LogLock) && Holds(m.tasks[u], SlavesLock);
  }

  /** The drain holds the log and wants the slaves, the connection the other way round. */
  lemma CrossWait(m: Master, es: seq<Event>, n: Master) returns (more: seq<Event>, next: Master)
    requires Reached(m, es, n) && AllIdle(n) && |n.tasks| >= 2
    requires !AtMost(n.log, n.offset) && n.offset > 0
    ensures Reached(m, more, next) && Stuck(next)
  {
    hide Reached, AtMost, Stuck, Apply;
    var now := LateSweep(n.slaves, n.interval);
    more, next := EditAlone(m, es, n, 0, Sweeping(now));
    assert next.slaves == [] by { SweepIs(n.slaves, now, n.interval); }
    more, next := DrainWaits(m, more, next, 0);
    more, next := ConnectionWaits(m, more, next, 1, Input(now, true));
    CrossedAreStuck(next, 0, 1);
  }

  lemma SweepIs(slaves: seq<Slave>, now: int, interval: nat)
    ensures Apply(slaves, Sweeping(now), interval) == Sweep(slaves, now, interval)
  {
  }

  // ---------------------------------------------------------------- getting the offset up to one

  /** Some entry above the offset is still in the log when k more commands have been appended. */
  predicate Survives(log: seq<LogEntry>, offset: int, k: nat, max: nat) {
    exists i :: 0 <= i < |log| && log[i].offset > offset && |log| - i + k <= max
  }

  lemma SurvivesAppend(log: seq<LogEntry>, bar: int, k: nat, max: nat, offset: int, command: string)
    requires k > 0 && Survives(log, bar, k, max)
    ensures Survives(Append(log, offset, command, max), bar, k - 1, max)
  {
    var i :| 0 <= i < |log| && log[i].offset > bar && |log| - i + k <= max;
    var longer, after := log + [LogEntry(offset, command)], Append(log, offset, command, max);
    TrimIsTail(longer, max);
    var j := i - (|longer| - |after|);
    assert after[j] == longer[i];
  }

  /** k calls of replicateCommand raise the offset by k. */
  lemma RaiseOffset(m: Master, es: seq<Event>, n: Master, bar: int, k: nat)
      returns (more: seq<Event>, next: Master)
    requires Reached(m, es, n) && AllIdle(n) && |n.tasks| > 0 && Survives(n.log, bar, k, n.maxLog)
    ensures Reached(m, more, next) && AllIdle(next) && |next.tasks| == |n.tasks|
    ensures next.offset == n.offset + k && !AtMost(next.log, bar)
    decreases k
  {
    if k == 0 {
      more, next := es, n;
    } else {
      SurvivesAppend(n.log, bar, k, n.maxLog, n.offset, "a");
      hide Reached, Survives, AtMost, Append, Reports;
      more, next := ReplicateAlone(m, es, n, 0, "a");
      more, next := RaiseOffset(m, more, next, bar, k - 1);
    }
  }

  /** Every entry above one has at least k younger ones. */
  predicate Buried(log: seq<LogEntry>, k: int) {
    forall i :: 0 <= i < |log| && log[i].offset > 1 ==> i + k < |log|
  }

  /** No entry above one will be in the log when the offset, set to value, has come up to one. */
  predicate Fading(log: seq<LogEntry>, offset: int, max: nat, value: int) {
    AtMost(log, 1) || (|log| <= max <= 1 - value && Buried(log, offset - value))
  }

  lemma FadingAppend(log: seq<LogEntry>, offset: int, command: string, max: nat, value: int)
    requires Fading(log, offset, max, value) && offset <= 0
    ensures Fading(Append(log, offset, command, max), offset + 1, max, value)
    ensures offset == 0 ==> AtMost(Append(log, offset, command, max), 1)
  {
    TrimIsTail(log + [LogEntry(offset, command)], max);
  }

  /** While the offset is not positive no connection waits for the log. */
  predicate NoSync(m: Master) {
    forall t :: 0 <= t < |m.tasks| ==> !m.tasks[t].ToSync? && !m.tasks[t].SyncingSlave?
  }

  predicate Low(m: Master, value: int) {
    Mutex(m) && NoSync(m) && Distinct(m.slaves) && Clients(m) && m.offset <= 0
    && Fading(m.log, m.offset, m.maxLog, value)
  }

  /** Without syncs the locks are taken in another order: the log, the slaves, the statistics. */
  function LogFirst(lock: Option<Lock>): nat {
    match lock
    case Some(LogLock) => 3
    case Some(SlavesLock) => 2
    case Some(StatsLock) => 1
    case None => 0
  }

  lemma LogComesFirst(task: Task, held: Lock)
    requires Holds(task, held) && !task.ToSync?
    ensures LogFirst(Wants(task)) < LogFirst(Some(held))
  {
  }

  lemma {:induction false} NoDeadlockWithoutSync(m: Master, t: nat) returns (r: nat)
    requires NoSync(m) && t < |m.tasks| && m.tasks[t] != Idle
    ensures Enabled(m, r)
    decreases LogFirst(Wants(m.tasks[t]))
  {
    r := t;
    if !Enabled(m, t) {
      var u :| 0 <= u < |m.tasks| && Holds(m.tasks[u], Wants(m.tasks[t]).value);
      LogComesFirst(m.tasks[u], Wants(m.tasks[t]).value);
      r := NoDeadlockWithoutSync(m, u);
    }
  }

  lemma WorkStaysLow(m: Master, task: Task, input: Input, value: int)
    requires m.offset <= 0 && Fading(m.log, m.offset, m.maxLog, value) && FromZero(m.slaves) && ByClient(task)
    requires !task.ToSync? && !task.SyncingSlave?
    ensures var (n, next) := Work(m, task, input);
            && !next.ToSync? && !next.SyncingSlave?
            && ((n.offset <= 0 && Fading(n.log, n.offset, n.maxLog, value))
                || (task.Appending? && n.offset == 1 && AtMost(n.log, 1) && next.ToBroadcast?)
                || (task.Draining? && n.log == [] && next == Idle))
  {
    if task.Appending? { FadingAppend(m.log, m.offset, task.command, m.maxLog, value); }
    if task.Registering? { NobodyLags(m.slaves, task.host, input.now, input.sent, m.offset); }
    hide Register, CaughtUp, Apply, Append, Reports, ClientName, FromClient;
  }

  /** Whoever holds the log is the only one to be draining or broadcasting from the log. */
  lemma LogHolderIsAlone(m: Master, t: nat)
    requires Mutex(m) && t < |m.tasks| && Holds(m.tasks[t], LogLock)
    ensures forall u :: 0 <= u < |m.tasks| && u != t ==>
              !m.tasks[u].Draining? && !m.tasks[u].ToRebroadcast? && !m.tasks[u].Rebroadcasting?
  {
    assert forall u :: 0 <= u < |m.tasks| && u != t ==> !Holds(m.tasks[u], LogLock);
  }

  lemma {:induction false} LowKept(m: Master, value: int, e: Event)
    requires Low(m, value) && Allowed(m, e) && !e.SetOffset?
    ensures Low(After(m, e), value) || Silent(After(m, e))
  {
    hide Mutex, Distinct, Clients, Fading, AtMost, Work, Wants, FreeLock;
    MutexKept(m, e);
    DistinctKept(m, e);
    ClientsKept(m, e);
    if e.Proceed? {
      var task := m.tasks[e.thread];
      ClientsMean(m, e.thread);
      WorkStaysLow(m, task, e.input, value);
      if Holds(task, LogLock) { LogHolderIsAlone(m, e.thread); }
      EmptyIsAtMost(After(m, e));
    }
  }

  lemma ClientsMean(m: Master, t: nat)
    requires Clients(m) && t < |m.tasks|
    ensures FromZero(m.slaves) && ByClient(m.tasks[t])
  {
  }

  lemma EmptyIsAtMost(m: Master)
    ensures m.log == [] ==> forall offset :: AtMost(m.log, offset)
  {
  }

  lemma {:induction false} LowNeverStuck(m: Master, value: int, es: seq<Event>)
    requires (Low(m, value) || Silent(m)) && Legal(m, es) && Undisturbed(es)
    ensures !Stuck(End(m, es))
    decreases |es|
  {
    hide Mutex, Distinct, Clients, Fading, AtMost;
    if es != [] {
      assert !es[0].SetOffset?;
      assert forall i :: 0 <= i < |es| - 1 ==> es[1..][i] == es[i + 1];
      if Silent(m) { SilentKept(m, es[0]); } else { LowKept(m, value, es[0]); }
      LowNeverStuck(After(m, es[0]), value, es[1..]);
    } else if !AllIdle(m) {
      if Silent(m) {
        var t := NoDeadlock(m);
      } else {
        var t: nat :| t < |m.tasks| && m.tasks[t] != Idle;
        t := NoDeadlockWithoutSync(m, t);
      }
    }
  }

  // ---------------------------------------------------------------- which offsets deadlock

  /** A lagging client is needed, and clients start at zero: the offset must be positive before an
      entry above it is gone. It is, or so many commands as bring it up to one leave such an entry
      in the log. */
  predicate Harmful(m: Master, value: int) {
    && TooLow(m, value) && |m.history| > 2
    && (value >= 1 || 1 - value < m.maxLog)
  }

  lemma HarmfulRun(m: Master, value: int) returns (es: seq<Event>)
    requires Inv(m) && AllIdle(m) && |m.tasks| >= 2 && Harmful(m, value)
    ensures var n := m.(offset := value); Legal(n, es) && Undisturbed(es) && Stuck(End(n, es))
  {
    var start, n := m.(offset := value), m.(offset := value);
    assert Reached(start, [], start);
    es := [];
    TooLowMeans(m, value);
    if value < 1 {
      assert m.log[|m.log| - 1].offset == |m.history| - 1;
      assert Survives(m.log, 1, 1 - value, m.maxLog);
      es, n := RaiseOffset(start, es, n, 1, 1 - value);
    }
    hide Reached, Inv, AtMost, Stuck;
    es, n := CrossWait(start, es, n);
    ReachedMeans(start, es, n);
  }

  lemma HarmlessStart(m: Master, value: int)
    requires Inv(m) && AllIdle(m) && TooLow(m, value) && !Harmful(m, value)
    ensures Low(m.(offset := value), value)
  {
  }

  /** Set between calls, an offset can bring the master to a standstill exactly if there is a second
      thread, the offset lies below that of the newest entry, and it is positive or comes up to one
      while an entry above one is in the log. */
  lemma {:induction false} OffsetDeadlocks(m: Master, value: int)
    requires Inv(m) && AllIdle(m)
    ensures var n := m.(offset := value);
            (exists es :: Legal(n, es) && Undisturbed(es) && Stuck(End(n, es)))
            <==>
            && |m.tasks| >= 2 && m.log != [] && value < |m.history| - 1
            && |m.history| > 2 && (value >= 1 || 1 - value < m.maxLog)
  {
    var n := m.(offset := value);
    if |m.tasks| >= 2 && Harmful(m, value) {
      var es := HarmfulRun(m, value);
    } else {
      forall es: seq<Event> | Legal(n, es) && Undisturbed(es) ensures !Stuck(End(n, es)) {
        if !TooLow(m, value) { HighOffsetIsHarmless(m, value, es); }
        else if |m.tasks| <= 1 { LoneThreadNeverStuck(n, es); }
        else {
          HarmlessStart(m, value);
          LowNeverStuck(n, value, es);
        }
      }
    }
  }

  lemma {:induction false} LegalConcat(m: Master, a: seq<Event>, b: seq<Event>)
    requires Legal(m, a) && Legal(End(m, a), b)
    ensures Legal(m, a + b) && End(m, a + b) == End(End(m, a), b)
    decreases |a|
  {
    if a == [] {
      assert a + b == b;
    } else {
      assert (a + b)[1..] == a[1..] + b;
      LegalConcat(After(m, a[0]), a[1..], b);
    }
  }

  /** After three commands, the offset set to one and the run of CrossWait. */
  lemma StuckRun(threads: nat, maxLog: nat, interval: nat) returns (es: seq<Event>)
    requires threads >= 2 && maxLog >= 1
    ensures Legal(Start(threads, maxLog, interval), es) && Stuck(End(Start(threads, maxLog, interval), es))
  {
    var m, n := Start(threads, maxLog, interval), Start(threads, maxLog, interval);
    assert Reached(m, [], m);
    es := ThreeCommands(m);
    n := End(m, es);
    StartInv(threads, maxLog, interval);
    RunKeepsInv(m, es);
    hide Inv, Stuck;
    var rest := HarmfulRun(n, 1);
    Extend(m, es, SetOffset(1));
    LegalConcat(m, es + [SetOffset(1)], rest);
    es := es + [SetOffset(1)] + rest;
  }

  lemma ThreeCommands(m: Master) returns (es: seq<Event>)
    requires AllIdle(m) && |m.tasks| >= 1 && m.maxLog >= 1
    ensures Legal(m, es) && Undisturbed(es)
    ensures var n := End(m, es);
            AllIdle(n) && |n.tasks| == |m.tasks| && |n.history| == |m.history| + 3 && n.log != []
  {
    var n := m;
    assert Reached(m, [], m);
    hide Reached, Append, Reports;
    es, n := ReplicateAlone(m, [], n, 0, "a");
    es, n := ReplicateAlone(m, es, n, 0, "b");
    LastIsKept(n.log, n.offset, "c", n.maxLog);
    es, n := ReplicateAlone(m, es, n, 0, "c");
    ReachedMeans(m, es, n);
  }

  lemma LastIsKept(log: seq<LogEntry>, offset: int, command: string, max: nat)
    requires max >= 1
    ensures Append(log, offset, command, max) != []
  {
    TrimIsTail(log + [LogEntry(offset, command)], max);
  }

  /** From the start, a run with calls of setReplicationOffset can get stuck exactly on a master with
      two threads and room for one log entry. */
  lemma {:induction false} OffsetFromOutsideDeadlocks(threads: nat, maxLog: nat, interval: nat)
    ensures var m := Start(threads, maxLog, interval);
            (exists es :: Legal(m, es) && Stuck(End(m, es))) <==> threads >= 2 && maxLog >= 1
  {
    var m := Start(threads, maxLog, interval);
    if threads >= 2 && maxLog >= 1 {
      var es := StuckRun(threads, maxLog, interval);
    } else {
      StartInv(threads, maxLog, interval);
      InvIsSilent(m);
      forall es | Legal(m, es) ensures !Stuck(End(m, es)) {
        if maxLog == 0 {
          NoLogIsHarmless(m, es);
          HarmlessOffsets(m, es);
        } else {
          LoneThreadNeverStuck(m, es);
        }
      }
    }
  }
}
