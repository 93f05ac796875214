/** Which steps touch the shared state, and under which lock. */
module MasterAccess {
  import opened Wrappers
  import opened ReplicationLog
  import opened SlaveRegistry
  import opened MasterProtocol
  import opened MasterSafety

  /** Whatever changes, changes under its lock: the list and the reports made from it under the
      slaves' mutex, the log, its history and the offset under the log's, the statistics under theirs. */
  lemma {:induction false} ChangesAreLocked(m: Master, task: Task, input: Input)
    ensures var n := Work(m, task, input).0;
            && (n.slaves != m.slaves || n.reports != m.reports ==> Holds(task, SlavesLock))
            && (n.log != m.log || n.history != m.history || n.offset != m.offset ==> Holds(task, LogLock))
            && (n.stats != m.stats ==> Holds(task, StatsLock))
            && n.maxLog == m.maxLog && n.interval == m.interval
  {
    hide Register, CaughtUp, Apply, Append, Reports, OnlineCount, TotalLag, MeanLag, SyncAnswer;
  }

  /** A step whose thread does not hold the slaves' mutex does the same on any other list. The count
      of handleNewSlaveConnections is the one exception. */
  lemma {:induction false} ListIsReadLocked(m: Master, slaves: seq<Slave>, task: Task, input: Input)
    requires !Holds(task, SlavesLock) && !task.CountingOnline?
    ensures var (n, next) := Work(m, task, input);
            Work(m.(slaves := slaves), task, input) == (n.(slaves := slaves), next)
  {
    hide Register, CaughtUp, Apply, Append, Reports, OnlineCount, TotalLag, MeanLag, SyncAnswer;
  }

  /** One that neither holds the log's mutex nor is about to take it does the same on any other log. */
  lemma {:induction false} LogIsReadLocked(m: Master, log: seq<LogEntry>, task: Task, input: Input)
    requires !Holds(task, LogLock) && Wants(task) != Some(LogLock)
    ensures var (n, next) := Work(m, task, input);
            Work(m.(log := log), task, input) == (n.(log := log), next)
  {
    hide Register, CaughtUp, Apply, Append, Reports, OnlineCount, TotalLag, MeanLag, SyncAnswer;
  }

  /** And with any other offset, except where a connection compares it with the slave's and where
      updateSlaveStats sums up lags. */
  lemma {:induction false} OffsetIsReadLocked(m: Master, offset: int, task: Task, input: Input)
    requires !Holds(task, LogLock) && Wants(task) != Some(LogLock) && !task.Registering? && !task.SummingLag?
    ensures var (n, next) := Work(m, task, input);
            Work(m.(offset := offset), task, input) == (n.(offset := offset), next)
  {
    hide Register, CaughtUp, Apply, Append, Reports, OnlineCount, TotalLag, MeanLag, SyncAnswer;
  }

  /** The three exceptions are real: in some state each of them depends on what its thread has not
      locked. */
  lemma {:induction false} UnlockedReads(m: Master, host: string, input: Input)
    requires input.sent
    ensures !Holds(CountingOnline, SlavesLock)
         && exists a, b :: Work(m.(slaves := a), CountingOnline, input).0.stats
                        != Work(m.(slaves := b), CountingOnline, input).0.stats
    ensures !Holds(Registering(host), LogLock)
         && exists a, b :: Work(m.(slaves := [], offset := a), Registering(host), input).1
                        != Work(m.(slaves := [], offset := b), Registering(host), input).1
    ensures !Holds(SummingLag, LogLock)
         && exists slaves, a, b :: Work(m.(slaves := slaves, offset := a), SummingLag, input).1
                                != Work(m.(slaves := slaves, offset := b), SummingLag, input).1
  {
    var s := NewSlave(host, 0).(online := true);
    OneOnline(s);
    assert Work(m.(slaves := []), CountingOnline, input).0.stats
        != Work(m.(slaves := [s]), CountingOnline, input).0.stats;
    assert Work(m.(slaves := [], offset := 0), Registering(host), input).1
        != Work(m.(slaves := [], offset := 1), Registering(host), input).1;
    assert Work(m.(slaves := [s], offset := 0), SummingLag, input).1
        != Work(m.(slaves := [s], offset := 1), SummingLag, input).1;
  }

  lemma OneOnline(s: Slave)
    requires s.online && s.offset == 0
    ensures OnlineCount([]) == 0 && OnlineCount([s]) == 1
    ensures TotalLag([s], 0) == 0 && TotalLag([s], 1) == 1
  {
  }

  /** Between summing up and publishing the list cannot change, so that the number of slaves online
      is right when it is published. */
  predicate SumsAreCurrent(m: Master) {
    forall t :: 0 <= t < |m.tasks| && (m.tasks[t].ToPublishLag? || m.tasks[t].PublishingLag?) ==>
      m.tasks[t].online == OnlineCount(m.slaves)
  }

  lemma SumStep(m: Master, task: Task, input: Input)
    requires task.ToPublishLag? ==> task.online == OnlineCount(m.slaves)
    ensures var (n, next) := Work(m, task, input);
            next.ToPublishLag? || next.PublishingLag? ==>
              next.online == OnlineCount(m.slaves) && n.slaves == m.slaves
  {
    hide Register, CaughtUp, Apply, Append, Reports, OnlineCount, TotalLag, MeanLag, SyncAnswer;
  }

  lemma {:induction false} SumsStayCurrent(m: Master, e: Event)
    requires Mutex(m) && SumsAreCurrent(m) && Allowed(m, e)
    ensures SumsAreCurrent(After(m, e))
    ensures e.Proceed? && m.tasks[e.thread].PublishingLag? ==>
              After(m, e).stats.online == OnlineCount(After(m, e).slaves)
  {
    if e.Proceed? {
      var task := m.tasks[e.thread];
      ChangesAreLocked(m, task, e.input);
      SumStep(m, task, e.input);
      OthersHoldTheList(m, e.thread);
      if task.PublishingLag? { PublishedIs(m, task, e.input); }
    }
    hide Work, Wants, FreeLock, Mutex, Holds;
  }

  lemma PublishedIs(m: Master, task: Task, input: Input)
    requires task.PublishingLag?
    ensures Work(m, task, input).0.stats.online == task.online && Work(m, task, input).0.slaves == m.slaves
  {
  }

  lemma OthersHoldTheList(m: Master, t: nat)
    requires Mutex(m) && t < |m.tasks|
    ensures Holds(m.tasks[t], SlavesLock) ==>
              forall u :: 0 <= u < |m.tasks| && u != t ==> !m.tasks[u].ToPublishLag? && !m.tasks[u].PublishingLag?
  {
    if Holds(m.tasks[t], SlavesLock) {
      assert forall u :: 0 <= u < |m.tasks| && u != t ==> !Holds(m.tasks[u], SlavesLock);
    }
  }

  // ---------------------------------------------------------------- commands counted

  /** How much a thread still has to count: one command and its length. */
  function Uncounted(task: Task, history: seq<string>): (nat, nat) {
    match task
    case ToBroadcast(id) => (1, SizeOf(history, id))
    case Broadcasting(id) => (1, SizeOf(history, id))
    case ToCount(bytes) => (1, bytes)
    case Counting(bytes) => (1, bytes)
    case _ => (0, 0)
  }

  function AllUncounted(tasks: seq<Task>, history: seq<string>): (nat, nat) {
    if tasks == [] then (0, 0)
    else
      var first, rest := Uncounted(tasks[0], history), AllUncounted(tasks[1..], history);
      (first.0 + rest.0, first.1 + rest.1)
  }

  function Bytes(history: seq<string>): nat {
    if history == [] then 0 else |history[0]| + Bytes(history[1..])
  }

  /** What has been counted and what the threads have yet to count is what has been appended. */
  predicate EveryCommandCounts(m: Master) {
    var open := AllUncounted(m.tasks, m.history);
    m.stats.commands + open.0 == |m.history| && m.stats.bytes + open.1 == Bytes(m.history)
  }

  lemma {:induction false} BytesAppend(history: seq<string>, c: string)
    ensures Bytes(history + [c]) == Bytes(history) + |c|
  {
    if history == [] {
      assert history + [c] == [c];
    } else {
      assert (history + [c])[1..] == history[1..] + [c];
      BytesAppend(history[1..], c);
    }
  }

  lemma {:induction false} UncountedUpdate(tasks: seq<Task>, history: seq<string>, t: nat, task: Task)
    requires t < |tasks|
    ensures var all, old', new' := AllUncounted(tasks, history), Uncounted(tasks[t], history), Uncounted(task, history);
            var after := AllUncounted(tasks[t := task], history);
            after.0 == all.0 - old'.0 + new'.0 && after.1 == all.1 - old'.1 + new'.1
  {
    if t == 0 {
      assert tasks[t := task][1..] == tasks[1..];
    } else {
      assert tasks[t := task][1..] == tasks[1..][t - 1 := task];
      UncountedUpdate(tasks[1..], history, t - 1, task);
    }
  }

  /** A longer history does not change what the threads owe, since they name commands in it. */
  lemma {:induction false} UncountedGrows(tasks: seq<Task>, history: seq<string>, c: string)
    requires forall t :: 0 <= t < |tasks| && Owing(tasks[t]) ==> tasks[t].id < |history|
    ensures AllUncounted(tasks, history + [c]) == AllUncounted(tasks, history)
  {
    if tasks != [] {
      assert forall t :: 0 <= t < |tasks| - 1 ==> tasks[1..][t] == tasks[t + 1];
      UncountedGrows(tasks[1..], history, c);
    }
  }

  lemma WorkCounts(m: Master, task: Task, input: Input)
    ensures var (n, next) := Work(m, task, input);
            var before, after := Uncounted(task, m.history), Uncounted(next, n.history);
            if task.Appending? then
              n.history == m.history + [task.command] && n.stats == m.stats && before == (0, 0)
              && after == (1, |task.command|)
            else
              n.history == m.history
              && n.stats.commands + after.0 == m.stats.commands + before.0
              && n.stats.bytes + after.1 == m.stats.bytes + before.1
  {
    hide Register, CaughtUp, Apply, Append, Reports, OnlineCount, TotalLag, MeanLag, SyncAnswer;
  }

  lemma {:induction false} CountKept(m: Master, e: Event)
    requires EveryCommandCounts(m) && Naming(m) && Allowed(m, e)
    ensures EveryCommandCounts(After(m, e))
  {
    hide Work, Uncounted, Wants, FreeLock, AllUncounted, Bytes;
    var n := After(m, e);
    match e
    case Begin(t, task) =>
      UncountedUpdate(m.tasks, m.history, t, task);
      EntryCountsNothing(task, m.history);
    case SetOffset(_) =>
    case Proceed(t, input) =>
      var task := m.tasks[t];
      WorkCounts(m, task, input);
      UncountedUpdate(m.tasks, n.history, t, n.tasks[t]);
      if task.Appending? {
        UncountedGrows(m.tasks, m.history, task.command);
        BytesAppend(m.history, task.command);
        AppendingCountsNothing(task, n.history);
      }
  }

  lemma AppendingCountsNothing(task: Task, history: seq<string>)
    requires task.Appending?
    ensures Uncounted(task, history) == (0, 0)
  {
  }

  lemma EntryCountsNothing(task: Task, history: seq<string>)
    requires Entry(task)
    ensures Uncounted(task, history) == (0, 0) == Uncounted(Idle, history)
  {
    hide ByClient;
  }

  lemma {:induction false} IdleCountsNothing(tasks: seq<Task>, history: seq<string>)
    requires forall t :: 0 <= t < |tasks| ==> tasks[t] == Idle
    ensures AllUncounted(tasks, history) == (0, 0)
  {
    if tasks != [] { IdleCountsNothing(tasks[1..], history); }
  }

  lemma {:induction false} RunCounts(m: Master, es: seq<Event>)
    requires EveryCommandCounts(m) && Recorded(m) && Legal(m, es)
    ensures EveryCommandCounts(End(m, es))
    decreases |es|
  {
    hide EveryCommandCounts, Recorded, TailOf, Naming;
    if es != [] {
      RecordedNames(m);
      CountKept(m, es[0]);
      RecordedKept(m, es[0]);
      RunCounts(After(m, es[0]), es[1..]);
    }
  }

  lemma RecordedNames(m: Master)
    requires Recorded(m)
    ensures Naming(m)
  {
  }

  /** Every command is counted once with its length, whatever is interleaved and whatever offsets are
      set from outside: when no call is under way the statistics are those of the history. */
  lemma {:induction false} EveryCommandCountedOnce(threads: nat, maxLog: nat, interval: nat, es: seq<Event>)
    requires Legal(Start(threads, maxLog, interval), es)
    ensures var m := End(Start(threads, maxLog, interval), es);
            && EveryCommandCounts(m)
            && (AllIdle(m) ==> m.stats.commands == |m.history| && m.stats.bytes == Bytes(m.history))
  {
    var start := Start(threads, maxLog, interval);
    IdleCountsNothing(start.tasks, []);
    RunCounts(start, es);
    var m := End(start, es);
    if AllIdle(m) { IdleCountsNothing(m.tasks, m.history); }
  }

  /** In every run, offsets set from outside or not, the number of slaves online is right at the
      moment it is published. */
  lemma {:induction false} SumsAlwaysCurrent(m: Master, es: seq<Event>)
    requires Mutex(m) && SumsAreCurrent(m) && Legal(m, es)
    ensures Mutex(End(m, es)) && SumsAreCurrent(End(m, es))
    decreases |es|
  {
    if es != [] {
      hide Mutex, SumsAreCurrent;
      MutexKept(m, es[0]);
      SumsStayCurrent(m, es[0]);
      SumsAlwaysCurrent(After(m, es[0]), es[1..]);
    }
  }
}
