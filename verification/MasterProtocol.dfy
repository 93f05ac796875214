/** The replication master as a state machine: any number of threads, three mutexes, one step
    per critical section or lock request (replication/replication_manager.cpp). */
module MasterProtocol {
  import opened Wrappers
  import opened ReplicationLog
  import opened SlaveRegistry

  /** replication_log_mutex_, slaves_mutex_, stats_mutex_. */
  datatype Lock = LogLock | SlavesLock | StatsLock

  /** Where a thread stands. A task "To..." waits for a lock, the "...ing" after it holds it. */
  datatype Task =
    | Idle
    // replicateCommand: append, broadcast, count
    | ToAppend(command: string) | Appending(command: string)
    | ToBroadcast(id: nat) | Broadcasting(id: nat)
    | ToCount(bytes: nat) | Counting(bytes: nat)
    // processReplicationQueue, with its local current_offset
    | ToDrain | Draining(current: int)
    | ToRebroadcast(current: int) | Rebroadcasting(current: int)
    // handleSlaveConnection and sendSyncCommands; index is the slave's place in the list
    | ToRegister(host: string) | Registering(host: string)
    | ToSync(index: nat) | SyncingSlave(index: nat)
    // handleSyncRequest, with the offset the slave names
    | ToAnswer(from: int) | Answering(from: int)
    // addSlave, removeSlave, cleanupDeadSlaves, checkSlaveHealth, pingSlaves, updateSlavePing, updateSlaveOffset
    | ToEdit(edit: Edit) | Editing(edit: Edit)
    // updateSlaveStats, with its local sums
    | ToSumLag | SummingLag | ToPublishLag(online: nat, total: int) | PublishingLag(online: nat, total: int)
    // handleNewSlaveConnections
    | ToCountOnline | CountingOnline

  predicate Holds(task: Task, lock: Lock) {
    match lock
    case LogLock =>
      || task.Appending? || task.Draining? || task.ToRebroadcast? || task.Rebroadcasting?
      || task.SyncingSlave? || task.Answering?
    case SlavesLock =>
      || task.Broadcasting? || task.Rebroadcasting? || task.Registering? || task.ToSync?
      || task.SyncingSlave? || task.Editing? || task.SummingLag? || task.ToPublishLag? || task.PublishingLag?
    case StatsLock =>
      task.Counting? || task.PublishingLag? || task.CountingOnline?
  }

  function Wants(task: Task): Option<Lock> {
    if task.ToAppend? || task.ToDrain? || task.ToSync? || task.ToAnswer? then Some(LogLock)
    else if task.ToBroadcast? || task.ToRebroadcast? || task.ToRegister? || task.ToEdit? || task.ToSumLag?
    then Some(SlavesLock)
    else if task.ToCount? || task.ToPublishLag? || task.ToCountOnline? then Some(StatsLock)
    else None
  }

  /** Connections, PINGs and acknowledgements come from clients, under their addresses. */
  predicate ByClient(task: Task) {
    && (task.ToRegister? || task.Registering? ==> ClientName(task.host))
    && (task.ToEdit? || task.Editing? ==> FromClient(task.edit))
  }

  /** Where a call from outside starts. */
  predicate Entry(task: Task) {
    && (task.ToAppend? || task.ToDrain? || task.ToRegister? || task.ToAnswer? || task.ToEdit?
        || task.ToSumLag? || task.ToCountOnline?)
    && ByClient(task)
  }

  /** A line "Replicated command to slave": the slave, and the command by its place in the history. */
  datatype Report = Report(slave: string, command: int)

  /** ReplicationStats: commands and bytes replicated, slaves online and their mean lag. */
  datatype Stats = Stats(commands: nat, bytes: nat, online: nat, lag: int)

  /** history and broadcasts record, in order, the commands appended and the ones handed to
      replicateToSlaves; reports records the lines those calls print, answers those given to sync
      requests. */
  datatype Master = Master(
    tasks: seq<Task>, log: seq<LogEntry>, offset: int, slaves: seq<Slave>, stats: Stats,
    history: seq<string>, broadcasts: seq<int>, reports: seq<Report>, answers: seq<string>,
    maxLog: nat, interval: nat)

  /** What a step depends on beyond the state: the clock, and whether a send succeeded. */
  datatype Input = Input(now: int, sent: bool)

  datatype Event =
    | Begin(thread: nat, task: Task)
    | Proceed(thread: nat, input: Input)
    | SetOffset(value: int)  // setReplicationOffset, called from outside

  predicate FreeLock(m: Master, lock: Lock) {
    forall u :: 0 <= u < |m.tasks| ==> !Holds(m.tasks[u], lock)
  }

  /** The thread is in a call and not kept waiting by a mutex. */
  predicate Enabled(m: Master, t: nat) {
    && t < |m.tasks| && m.tasks[t] != Idle
    && (Wants(m.tasks[t]).Some? ==> FreeLock(m, Wants(m.tasks[t]).value))
  }

  predicate Allowed(m: Master, e: Event) {
    match e
    case Begin(t, task) => t < |m.tasks| && m.tasks[t] == Idle && Entry(task)
    case Proceed(t, _) => Enabled(m, t)
    case SetOffset(_) => true
  }

  /** replicateToSlaves: the command is reported for every slave online, in list order. */
  function Reports(slaves: seq<Slave>, command: int): seq<Report> {
    if slaves == [] then []
    else (if slaves[0].online then [Report(slaves[0].id, command)] else []) + Reports(slaves[1..], command)
  }

  /** The length of a command by its place in the history. */
  function SizeOf(history: seq<string>, command: nat): nat {
    if command < |history| then |history[command]| else 0
  }

  function Counted(stats: Stats, bytes: nat): Stats {
    stats.(commands := stats.commands + 1, bytes := stats.bytes + bytes)
  }

  function Broadcast(m: Master, command: int): Master {
    m.(broadcasts := m.broadcasts + [command], reports := m.reports + Reports(m.slaves, command))
  }

  /** The shared state and the thread's next task after one step. Lock and test of an empty log are
      one step of the drain. The front of the log is the command |log| places from the end of the
      history (Recorded in MasterSafety). */
  function Work(m: Master, task: Task, input: Input): (Master, Task) {
    match task
    case ToAppend(c) => (m, Appending(c))
    case Appending(c) =>
      (m.(log := Append(m.log, m.offset, c, m.maxLog), offset := m.offset + 1, history := m.history + [c]),
       ToBroadcast(|m.history|))
    case ToBroadcast(id) => (m, Broadcasting(id))
    case Broadcasting(id) => (Broadcast(m, id), ToCount(SizeOf(m.history, id)))
    case ToCount(bytes) => (m, Counting(bytes))
    case Counting(bytes) => (m.(stats := Counted(m.stats, bytes)), Idle)
    case ToDrain => (m, if m.log == [] then Idle else Draining(m.offset))
    case Draining(current) =>
      if m.log == [] then (m.(offset := current), Idle)
      else if m.log[0].offset > current then (m, ToRebroadcast(current))
      else (m.(log := m.log[1..]), task)
    case ToRebroadcast(current) => (m, Rebroadcasting(current))
    case Rebroadcasting(current) =>
      if m.log == [] then (m, Draining(current))
      else (Broadcast(m, |m.history| - |m.log|).(log := m.log[1..]), Draining(m.log[0].offset))
    case ToRegister(host) => (m, Registering(host))
    case Registering(host) =>
      var (slaves, p, lags) := Register(m.slaves, host, input.now, input.sent, m.offset);
      (m.(slaves := slaves), if lags then ToSync(p) else Idle)
    case ToSync(p) => (m, SyncingSlave(p))
    case SyncingSlave(p) => (m.(slaves := CaughtUp(m.slaves, p, m.offset)), Idle)
    case ToAnswer(from) => (m, Answering(from))
    case Answering(from) => (m.(answers := m.answers + [SyncAnswer(m.offset - from)]), Idle)
    case ToEdit(e) => (m, Editing(e))
    case Editing(e) => (m.(slaves := Apply(m.slaves, e, m.interval)), Idle)
    case ToSumLag => (m, SummingLag)
    case SummingLag => (m, ToPublishLag(OnlineCount(m.slaves), TotalLag(m.slaves, m.offset)))
    case ToPublishLag(online, total) => (m, PublishingLag(online, total))
    case PublishingLag(online, total) =>
      (m.(stats := m.stats.(online := online, lag := MeanLag(total, online))), Idle)
    case ToCountOnline => (m, CountingOnline)
    case CountingOnline => (m.(stats := m.stats.(online := OnlineCount(m.slaves))), Idle)
    case Idle => (m, Idle)
  }

  function After(m: Master, e: Event): (r: Master)
    requires Allowed(m, e)
    ensures |r.tasks| == |m.tasks|
  {
    match e
    case Begin(t, task) => m.(tasks := m.tasks[t := task])
    case Proceed(t, input) =>
      var (next, task) := Work(m, m.tasks[t], input);
      next.(tasks := m.tasks[t := task])
    case SetOffset(value) => m.(offset := value)
  }

  /** A run: every event is allowed where it happens. */
  predicate Legal(m: Master, es: seq<Event>)
    decreases |es|
  {
    es == [] || (Allowed(m, es[0]) && Legal(After(m, es[0]), es[1..]))
  }

  function End(m: Master, es: seq<Event>): Master
    requires Legal(m, es)
    decreases |es|
  {
    if es == [] then m else End(After(m, es[0]), es[1..])
  }

  function Start(threads: nat, maxLog: nat, interval: nat): Master {
    Master(seq(threads, _ => Idle), [], 0, [], Stats(0, 0, 0, 0), [], [], [], [], maxLog, interval)
  }

  /** No call of setReplicationOffset from outside. */
  predicate Undisturbed(es: seq<Event>) {
    forall i :: 0 <= i < |es| ==> !es[i].SetOffset?
  }

  predicate AllIdle(m: Master) {
    forall t :: 0 <= t < |m.tasks| ==> m.tasks[t] == Idle
  }
}
