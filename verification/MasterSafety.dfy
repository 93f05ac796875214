/** What every run of the master keeps: mutual exclusion, the log, exactly-once broadcast,
    distinct slaves. */
module MasterSafety {
  import opened Wrappers
  import opened ReplicationLog
  import opened SlaveRegistry
  import opened MasterProtocol

  predicate AllDifferent<T(==)>(s: seq<T>) {
    forall i, j :: 0 <= i < j < |s| ==> s[i] != s[j]
  }

  lemma DifferentConcat<T>(a: seq<T>, b: seq<T>)
    requires AllDifferent(a) && AllDifferent(b) && forall x :: x in a ==> x !in b
    ensures AllDifferent(a + b)
  {
    var c := a + b;
    forall i, j | 0 <= i < j < |c| ensures c[i] != c[j] {
      if i < |a| <= j { assert c[i] in a && c[j] in b; }
    }
  }

  predicate Mutex(m: Master) {
    forall t, u, l ::
      (0 <= t < |m.tasks| && 0 <= u < |m.tasks| && Holds(m.tasks[t], l) && Holds(m.tasks[u], l)) ==> t == u
  }

  /** No drain is broadcasting, or about to. */
  predicate NoRebroadcast(m: Master) {
    forall t :: 0 <= t < |m.tasks| ==> !m.tasks[t].ToRebroadcast? && !m.tasks[t].Rebroadcasting?
  }

  /** A drain under way ends with the offset it started from, and broadcasts nothing. */
  predicate QuietDrain(m: Master) {
    && NoRebroadcast(m)
    && forall t :: 0 <= t < |m.tasks| && m.tasks[t].Draining? ==> m.tasks[t].current == m.offset
  }

  /** The thread has appended a command and has yet to broadcast it. */
  predicate Owing(task: Task) {
    task.ToBroadcast? || task.Broadcasting?
  }

  predicate OwedBy(m: Master, id: int, t: nat) {
    t < |m.tasks| && Owing(m.tasks[t]) && m.tasks[t].id == id
  }

  /** Every command appended has been broadcast once, or exactly one thread is about to. */
  predicate OnceOrOwed(m: Master) {
    && AllDifferent(m.broadcasts)
    && (forall id :: id in m.broadcasts ==> 0 <= id < |m.history|)
    && (forall t :: 0 <= t < |m.tasks| && Owing(m.tasks[t]) ==>
          m.tasks[t].id < |m.history| && m.tasks[t].id !in m.broadcasts)
    && (forall t, u :: 0 <= t < u < |m.tasks| && Owing(m.tasks[t]) && Owing(m.tasks[u]) ==>
          m.tasks[t].id != m.tasks[u].id)
    && (forall id :: 0 <= id < |m.history| ==>
          id in m.broadcasts || exists t :: 0 <= t < |m.tasks| && OwedBy(m, id, t))
  }

  /** No command is reported for the same slave twice. */
  predicate NoDuplicates(m: Master) {
    && AllDifferent(m.reports)
    && (forall d :: d in m.reports ==> d.command in m.broadcasts)
  }

  /** What clients are known by, and that none is at a negative offset. */
  predicate Clients(m: Master) {
    && (forall t :: 0 <= t < |m.tasks| ==> ByClient(m.tasks[t]))
    && FromZero(m.slaves)
  }

  predicate Inv(m: Master) {
    && Mutex(m) && QuietDrain(m) && OnceOrOwed(m) && NoDuplicates(m) && Clients(m)
    && Logged(m.history, m.log, m.offset, m.maxLog)
    && Distinct(m.slaves)
  }

  /** A step takes no lock but the one the thread was waiting for. */
  lemma WorkLocks(m: Master, task: Task, input: Input, l: Lock)
    requires Holds(Work(m, task, input).1, l)
    ensures Holds(task, l) || Wants(task) == Some(l)
  {
  }

  lemma EntryHoldsNothing(task: Task, l: Lock)
    requires Entry(task)
    ensures !Holds(task, l)
  {
  }

  lemma MutexKept(m: Master, e: Event)
    requires Mutex(m) && Allowed(m, e)
    ensures Mutex(After(m, e))
  {
    hide Holds, Wants, Work, Entry;
    var n := After(m, e);
    if !e.SetOffset? {
      forall l | Holds(n.tasks[e.thread], l)
        ensures forall u :: 0 <= u < |m.tasks| && u != e.thread ==> !Holds(m.tasks[u], l)
      {
        if e.Begin? { EntryHoldsNothing(e.task, l); }
        else { WorkLocks(m, m.tasks[e.thread], e.input, l); }
      }
    }
  }

  lemma LoggedKept(m: Master, e: Event)
    requires Logged(m.history, m.log, m.offset, m.maxLog) && QuietDrain(m)
    requires Allowed(m, e) && !e.SetOffset?
    ensures var n := After(m, e); Logged(n.history, n.log, n.offset, n.maxLog)
  {
    hide Register, CaughtUp, Apply, Append, Reports, OnlineCount, TotalLag, MeanLag, SyncAnswer;
    if e.Proceed? && m.tasks[e.thread].Appending? {
      AppendKeepsLogged(m.history, m.log, m.tasks[e.thread].command, m.maxLog);
    }
  }

  lemma QuietDrainKept(m: Master, e: Event)
    requires Mutex(m) && QuietDrain(m) && Logged(m.history, m.log, m.offset, m.maxLog)
    requires Allowed(m, e) && !e.SetOffset?
    ensures QuietDrain(After(m, e))
  {
    hide Register, CaughtUp, Apply, Append, Reports, OnlineCount, TotalLag, MeanLag, SyncAnswer;
    if e.Proceed? && m.tasks[e.thread].Appending? {
      assert Holds(m.tasks[e.thread], LogLock);
      assert forall u :: 0 <= u < |m.tasks| && m.tasks[u].Draining? ==> Holds(m.tasks[u], LogLock);
    }
  }

  lemma DistinctKept(m: Master, e: Event)
    requires Distinct(m.slaves) && Allowed(m, e)
    ensures Distinct(After(m, e).slaves)
  {
    hide Distinct, Register, CaughtUp, Apply, Append, Reports, OnlineCount, TotalLag, MeanLag, SyncAnswer;
    if e.Proceed? {
      match m.tasks[e.thread]
      case Registering(host) => RegisterKeepsDistinct(m.slaves, host, e.input.now, e.input.sent, m.offset);
      case SyncingSlave(p) => CaughtUpKeepsDistinct(m.slaves, p, m.offset);
      case Editing(edit) => ApplyKeepsDistinct(m.slaves, edit, m.interval);
      case _ =>
    }
  }

  lemma WorkByClient(m: Master, task: Task, input: Input)
    requires ByClient(task)
    ensures ByClient(Work(m, task, input).1)
  {
    hide Register, CaughtUp, Apply, Append, Reports, ClientName, FromClient;
  }

  lemma WorkFromZero(m: Master, task: Task, input: Input)
    requires ByClient(task) && Distinct(m.slaves) && FromZero(m.slaves)
    requires task.SyncingSlave? ==> m.offset >= 0
    ensures FromZero(Work(m, task, input).0.slaves)
  {
    hide Register, CaughtUp, Apply, Append, Reports, ClientName, FromClient, FromZero, Distinct;
    match task
    case Registering(host) => RegisterKeepsFromZero(m.slaves, host, input.now, input.sent, m.offset);
    case SyncingSlave(p) => CaughtUpKeepsFromZero(m.slaves, p, m.offset);
    case Editing(edit) => ApplyKeepsFromZero(m.slaves, edit, m.interval);
    case _ =>
  }

  lemma ClientsKept(m: Master, e: Event)
    requires Clients(m) && Distinct(m.slaves) && Allowed(m, e)
    requires e.Proceed? && m.tasks[e.thread].SyncingSlave? ==> m.offset >= 0
    ensures Clients(After(m, e))
  {
    if e.Proceed? {
      WorkByClient(m, m.tasks[e.thread], e.input);
      WorkFromZero(m, m.tasks[e.thread], e.input);
    }
    hide Work, Wants, FreeLock, ByClient, FromZero;
  }

  /** A step that leaves the history, the broadcasts and what the thread owes alone. */
  lemma OtherStepsKeepOnce(m: Master, n: Master, t: nat)
    requires OnceOrOwed(m) && t < |m.tasks| == |n.tasks|
    requires n.history == m.history && n.broadcasts == m.broadcasts
    requires forall u :: 0 <= u < |m.tasks| && u != t ==> n.tasks[u] == m.tasks[u]
    requires Owing(n.tasks[t]) <==> Owing(m.tasks[t])
    requires Owing(m.tasks[t]) ==> n.tasks[t].id == m.tasks[t].id
    ensures OnceOrOwed(n)
  {
    forall id | 0 <= id < |n.history| && id !in n.broadcasts
      ensures exists u :: 0 <= u < |n.tasks| && OwedBy(n, id, u)
    {
      var u :| 0 <= u < |m.tasks| && OwedBy(m, id, u);
      assert OwedBy(n, id, u);
    }
  }

  lemma AppendKeepsOnce(m: Master, n: Master, t: nat, command: string)
    requires OnceOrOwed(m) && t < |m.tasks| && !Owing(m.tasks[t])
    requires n.history == m.history + [command] && n.broadcasts == m.broadcasts
    requires n.tasks == m.tasks[t := ToBroadcast(|m.history|)]
    ensures OnceOrOwed(n)
  {
    forall id | 0 <= id < |n.history| && id !in n.broadcasts
      ensures exists u :: 0 <= u < |n.tasks| && OwedBy(n, id, u)
    {
      if id == |m.history| {
        assert OwedBy(n, id, t);
      } else {
        var u :| 0 <= u < |m.tasks| && OwedBy(m, id, u);
        assert OwedBy(n, id, u);
      }
    }
  }

  lemma BroadcastKeepsOnce(m: Master, n: Master, t: nat)
    requires OnceOrOwed(m) && t < |m.tasks| && m.tasks[t].Broadcasting?
    requires n.history == m.history && n.broadcasts == m.broadcasts + [m.tasks[t].id]
    requires n.tasks == m.tasks[t := ToCount(SizeOf(m.history, m.tasks[t].id))]
    ensures OnceOrOwed(n)
  {
    forall id | 0 <= id < |n.history| && id !in n.broadcasts
      ensures exists u :: 0 <= u < |n.tasks| && OwedBy(n, id, u)
    {
      var u :| 0 <= u < |m.tasks| && OwedBy(m, id, u);
      assert n.broadcasts[|m.broadcasts|] == m.tasks[t].id;
      assert OwedBy(n, id, u);
    }
  }

  lemma OnceKept(m: Master, e: Event)
    requires OnceOrOwed(m) && NoRebroadcast(m) && Allowed(m, e)
    ensures OnceOrOwed(After(m, e))
  {
    hide OnceOrOwed, Register, CaughtUp, Apply, Append, Reports, OnlineCount, TotalLag, MeanLag, SyncAnswer;
    var n := After(m, e);
    match e
    case Begin(t, task) => OtherStepsKeepOnce(m, n, t);
    case SetOffset(_) => OnlyOffsetKeepsOnce(m, n);
    case Proceed(t, input) =>
      var task := m.tasks[t];
      if task.Appending? { AppendKeepsOnce(m, n, t, task.command); }
      else if task.Broadcasting? { BroadcastKeepsOnce(m, n, t); }
      else { OtherStepsKeepOnce(m, n, t); }
  }

  lemma OnlyOffsetKeepsOnce(m: Master, n: Master)
    requires OnceOrOwed(m)
    requires n.history == m.history && n.broadcasts == m.broadcasts && n.tasks == m.tasks
    ensures OnceOrOwed(n)
  {
    if |m.tasks| > 0 { OtherStepsKeepOnce(m, n, 0); }
  }

  lemma {:induction false} ReportsOnce(slaves: seq<Slave>, command: int)
    requires Distinct(slaves)
    ensures forall d :: d in Reports(slaves, command) <==>
              d.command == command && exists s :: s in slaves && s.online && s.id == d.slave
    ensures AllDifferent(Reports(slaves, command))
  {
    if slaves != [] {
      TailIsDistinct(slaves);
      ReportsOnce(slaves[1..], command);
      hide AllDifferent;
      var rest := Reports(slaves[1..], command);
      if slaves[0].online {
        var first := [Report(slaves[0].id, command)];
        OneIsDifferent(first[0]);
        DifferentConcat(first, rest);
      } else {
        assert Reports(slaves, command) == rest;
      }
    }
  }

  lemma OneIsDifferent<T>(x: T)
    ensures AllDifferent([x])
  {
  }

  lemma NoDuplicatesKept(m: Master, e: Event)
    requires NoDuplicates(m) && OnceOrOwed(m) && NoRebroadcast(m) && Distinct(m.slaves) && Allowed(m, e)
    ensures NoDuplicates(After(m, e))
  {
    if e.Proceed? && m.tasks[e.thread].Broadcasting? {
      var id := m.tasks[e.thread].id;
      ReportsOnce(m.slaves, id);
      BroadcastKeepsReports(m, id);
    }
  }

  lemma BroadcastKeepsReports(m: Master, id: int)
    requires NoDuplicates(m) && id !in m.broadcasts
    requires forall d :: d in Reports(m.slaves, id) ==> d.command == id
    requires AllDifferent(Reports(m.slaves, id))
    ensures NoDuplicates(Broadcast(m, id))
  {
    DifferentConcat(m.reports, Reports(m.slaves, id));
    var n := Broadcast(m, id);
    assert n.broadcasts[|m.broadcasts|] == id;
    assert forall x :: x in m.broadcasts ==> x in n.broadcasts;
  }

  // ---------------------------------------------------------------- whole runs

  lemma {:induction false} InvKept(m: Master, e: Event)
    requires Inv(m) && Allowed(m, e) && !e.SetOffset?
    ensures Inv(After(m, e))
  {
    MutexKept(m, e);
    LoggedKept(m, e);
    QuietDrainKept(m, e);
    DistinctKept(m, e);
    OnceKept(m, e);
    NoDuplicatesKept(m, e);
    ClientsKept(m, e);
    hide Mutex, QuietDrain, OnceOrOwed, NoDuplicates, Clients, Distinct, After, Allowed;
  }

  lemma {:induction false} StartInv(threads: nat, maxLog: nat, interval: nat)
    ensures Inv(Start(threads, maxLog, interval))
  {
  }

  lemma {:induction false} RunKeepsInv(m: Master, es: seq<Event>)
    requires Inv(m) && Legal(m, es) && Undisturbed(es)
    ensures Inv(End(m, es))
    decreases |es|
  {
    if es != [] {
      assert !es[0].SetOffset?;
      assert forall i :: 0 <= i < |es| - 1 ==> es[1..][i] == es[i + 1];
      InvKept(m, es[0]);
      RunKeepsInv(After(m, es[0]), es[1..]);
    }
  }

  /** Exactly once, under any interleaving: the drain never broadcasts, no command is broadcast twice,
      none that was not appended is broadcast, none is reported for a slave twice; and when no call is
      under way every command appended has been broadcast. */
  lemma {:induction false} ExactlyOnce(threads: nat, maxLog: nat, interval: nat, es: seq<Event>)
    requires Legal(Start(threads, maxLog, interval), es) && Undisturbed(es)
    ensures var m := End(Start(threads, maxLog, interval), es);
            && Logged(m.history, m.log, m.offset, maxLog)
            && AllDifferent(m.broadcasts)
            && (forall id :: id in m.broadcasts ==> 0 <= id < |m.history|)
            && AllDifferent(m.reports)
            && OnceOrOwed(m)
            && (AllIdle(m) ==> forall id :: 0 <= id < |m.history| ==> id in m.broadcasts)
            && Distinct(m.slaves)
  {
    StartInv(threads, maxLog, interval);
    RunKeepsInv(Start(threads, maxLog, interval), es);
    MaxLogFixed(Start(threads, maxLog, interval), es);
  }

  lemma {:induction false} MaxLogFixed(m: Master, es: seq<Event>)
    requires Legal(m, es)
    ensures End(m, es).maxLog == m.maxLog
    decreases |es|
  {
    if es != [] { MaxLogFixed(After(m, es[0]), es[1..]); }
  }

  lemma WorkOnlyExtends(m: Master, task: Task, input: Input)
    ensures var n := Work(m, task, input).0;
            m.history <= n.history && m.broadcasts <= n.broadcasts && m.reports <= n.reports && m.answers <= n.answers
  {
    hide Register, CaughtUp, Apply, Append, Reports, OnlineCount, TotalLag, MeanLag, SyncAnswer;
  }

  /** Nothing recorded is ever taken back: history, broadcasts, reports and answers only grow. */
  lemma {:induction false} RunOnlyExtends(m: Master, es: seq<Event>)
    requires Legal(m, es)
    ensures m.history <= End(m, es).history && m.broadcasts <= End(m, es).broadcasts && m.reports <= End(m, es).reports
    ensures m.answers <= End(m, es).answers
    decreases |es|
  {
    hide Work, Wants, FreeLock;
    if es != [] {
      if es[0].Proceed? { WorkOnlyExtends(m, m.tasks[es[0].thread], es[0].input); }
      RunOnlyExtends(After(m, es[0]), es[1..]);
    }
  }

  /** A command being broadcast is reported for every slave online at that moment, for good. */
  lemma {:induction false} BroadcastIsReported(m: Master, t: nat, input: Input, es: seq<Event>)
    requires Allowed(m, Proceed(t, input)) && m.tasks[t].Broadcasting? && Distinct(m.slaves)
    requires Legal(After(m, Proceed(t, input)), es)
    ensures forall s :: s in m.slaves && s.online ==>
              Report(s.id, m.tasks[t].id) in End(After(m, Proceed(t, input)), es).reports
  {
    var n := After(m, Proceed(t, input));
    ReportsOnce(m.slaves, m.tasks[t].id);
    RunOnlyExtends(n, es);
    forall s | s in m.slaves && s.online ensures Report(s.id, m.tasks[t].id) in n.reports {
      assert Report(s.id, m.tasks[t].id) in Reports(m.slaves, m.tasks[t].id);
    }
  }

  // ---------------------------------------------------------------- what the records name

  /** The log's commands are the last ones of the history, whatever their offsets. */
  predicate TailOf(history: seq<string>, log: seq<LogEntry>) {
    && |log| <= |history|
    && forall i :: 0 <= i < |log| ==> log[i].command == history[|history| - |log| + i]
  }

  /** Every record names a command of the history. */
  predicate Naming(m: Master) {
    && (forall t :: 0 <= t < |m.tasks| && Owing(m.tasks[t]) ==> m.tasks[t].id < |m.history|)
    && (forall id :: id in m.broadcasts ==> 0 <= id < |m.history|)
    && (forall r :: r in m.reports ==> 0 <= r.command < |m.history|)
  }

  predicate Recorded(m: Master) {
    TailOf(m.history, m.log) && Naming(m)
  }

  lemma AppendKeepsTail(history: seq<string>, log: seq<LogEntry>, offset: int, command: string, max: nat)
    requires TailOf(history, log)
    ensures TailOf(history + [command], Append(log, offset, command, max))
  {
    TrimIsTail(log + [LogEntry(offset, command)], max);
  }

  lemma TailOfKept(m: Master, e: Event)
    requires TailOf(m.history, m.log) && Allowed(m, e)
    ensures TailOf(After(m, e).history, After(m, e).log)
  {
    hide Register, CaughtUp, Apply, Append, Reports;
    if e.Proceed? && m.tasks[e.thread].Appending? {
      AppendKeepsTail(m.history, m.log, m.offset, m.tasks[e.thread].command, m.maxLog);
    }
  }

  lemma {:induction false} ReportsName(slaves: seq<Slave>, command: int)
    ensures forall r :: r in Reports(slaves, command) ==> r.command == command
  {
    if slaves != [] { ReportsName(slaves[1..], command); }
  }

  lemma BroadcastKeepsNaming(m: Master, id: int)
    requires Naming(m) && 0 <= id < |m.history|
    ensures Naming(Broadcast(m, id))
  {
    ReportsName(m.slaves, id);
  }

  lemma OwingNames(m: Master, task: Task, input: Input)
    requires Owing(task) ==> task.id < |m.history|
    ensures var (n, next) := Work(m, task, input);
            |n.history| >= |m.history| && (Owing(next) ==> next.id < |n.history|)
  {
    hide Register, CaughtUp, Apply, Append, Reports;
  }

  lemma SharedNames(m: Master, task: Task, input: Input)
    requires Recorded(m) && (Owing(task) ==> task.id < |m.history|)
    ensures Naming(Work(m, task, input).0.(tasks := []))
  {
    if task.Broadcasting? { BroadcastKeepsNaming(m, task.id); }
    if task.Rebroadcasting? && m.log != [] { BroadcastKeepsNaming(m, |m.history| - |m.log|); }
    hide Register, CaughtUp, Apply, Append, Reports;
  }

  lemma NamingKept(m: Master, e: Event)
    requires Recorded(m) && Allowed(m, e)
    ensures Naming(After(m, e))
  {
    if e.Proceed? {
      OwingNames(m, m.tasks[e.thread], e.input);
      SharedNames(m, m.tasks[e.thread], e.input);
      hide Work, Wants, FreeLock, TailOf;
    }
  }

  /** Every step keeps this, setReplicationOffset included: a rebroadcast names the command of the
      log's front entry. */
  lemma {:induction false} RecordedKept(m: Master, e: Event)
    requires Recorded(m) && Allowed(m, e)
    ensures Recorded(After(m, e))
    ensures e.Proceed? && m.tasks[e.thread].Rebroadcasting? && m.log != [] ==>
              After(m, e).broadcasts == m.broadcasts + [|m.history| - |m.log|]
              && m.history[|m.history| - |m.log|] == m.log[0].command
  {
    TailOfKept(m, e);
    NamingKept(m, e);
  }

  lemma {:induction false} RunKeepsRecorded(m: Master, es: seq<Event>)
    requires Recorded(m) && Legal(m, es)
    ensures Recorded(End(m, es))
    decreases |es|
  {
    if es != [] {
      RecordedKept(m, es[0]);
      RunKeepsRecorded(After(m, es[0]), es[1..]);
    }
  }

  /** So in every state any run reaches, offsets set from outside or not. */
  lemma {:induction false} AlwaysRecorded(threads: nat, maxLog: nat, interval: nat, es: seq<Event>)
    requires Legal(Start(threads, maxLog, interval), es)
    ensures Recorded(End(Start(threads, maxLog, interval), es))
  {
    RunKeepsRecorded(Start(threads, maxLog, interval), es);
  }
}
