/** No deadlock and bounded work for the master. */
module MasterProgress {
  import opened Wrappers
  import opened ReplicationLog
  import opened SlaveRegistry
  import opened MasterProtocol
  import opened MasterSafety

  // ---------------------------------------------------------------- lock order

  function LockOrder(lock: Lock): nat {
    if lock == SlavesLock then 0 else 1
  }

  /** Slaves before log and slaves before stats: a thread only waits for a lock above all those it
      holds, and one that holds the log never waits. */
  lemma {:induction false} LocksAreOrdered(m: Master, t: nat, held: Lock)
    requires NoRebroadcast(m) && t < |m.tasks| && Wants(m.tasks[t]).Some? && Holds(m.tasks[t], held)
    ensures LockOrder(held) < LockOrder(Wants(m.tasks[t]).value) && held == SlavesLock
  {
  }

  /** Whoever keeps a waiting thread from the lock it wants is running, or waits for a lock whose
      holder is running. */
  lemma {:induction false} WaitChainsAreShort(m: Master, t: nat, u: nat)
    requires NoRebroadcast(m) && t < |m.tasks| && u < |m.tasks|
    requires Wants(m.tasks[t]).Some? && Holds(m.tasks[u], Wants(m.tasks[t]).value)
    ensures Enabled(m, u)
         || exists w :: 0 <= w < |m.tasks| && Holds(m.tasks[w], Wants(m.tasks[u]).value) && Enabled(m, w)
  {
    if Wants(m.tasks[u]).Some? && !FreeLock(m, Wants(m.tasks[u]).value) {
      var w :| 0 <= w < |m.tasks| && Holds(m.tasks[w], Wants(m.tasks[u]).value);
      LocksAreOrdered(m, u, Wants(m.tasks[t]).value);
      assert Wants(m.tasks[w]).None?;
    }
  }

  /** While no drain broadcasts, some thread can take a step whenever a call is under way. */
  lemma {:induction false} NoDeadlock(m: Master) returns (t: nat)
    requires NoRebroadcast(m) && !AllIdle(m)
    ensures Enabled(m, t)
  {
    t :| 0 <= t < |m.tasks| && m.tasks[t] != Idle;
    if !Enabled(m, t) {
      var u :| 0 <= u < |m.tasks| && Holds(m.tasks[u], Wants(m.tasks[t]).value);
      WaitChainsAreShort(m, t, u);
      if Enabled(m, u) { t := u; }
      else { t :| 0 <= t < |m.tasks| && Holds(m.tasks[t], Wants(m.tasks[u]).value) && Enabled(m, t); }
    }
  }

  // ---------------------------------------------------------------- bounded work

  /** Steps left in the call, a drain's pops apart; an append may add one entry to pop. */
  function Cost(task: Task): nat {
    match task
    case Idle => 0
    case ToAppend(_) => 7
    case Appending(_) => 6
    case ToBroadcast(_) => 4
    case Broadcasting(_) => 3
    case ToRegister(_) => 4
    case Registering(_) => 3
    case ToSumLag => 4
    case SummingLag => 3
    case ToCount(_) => 2
    case ToDrain => 2
    case ToSync(_) => 2
    case ToAnswer(_) => 2
    case ToEdit(_) => 2
    case ToPublishLag(_, _) => 2
    case ToCountOnline => 2
    case _ => 1
  }

  function TotalCost(tasks: seq<Task>): nat {
    if tasks == [] then 0 else Cost(tasks[0]) + TotalCost(tasks[1..])
  }

  function Measure(m: Master): nat {
    |m.log| + TotalCost(m.tasks)
  }

  lemma {:induction false} TotalCostUpdate(tasks: seq<Task>, t: nat, task: Task)
    requires t < |tasks|
    ensures TotalCost(tasks[t := task]) == TotalCost(tasks) - Cost(tasks[t]) + Cost(task)
  {
    if t == 0 {
      assert tasks[t := task][1..] == tasks[1..];
    } else {
      assert tasks[t := task][1..] == tasks[1..][t - 1 := task];
      TotalCostUpdate(tasks[1..], t - 1, task);
    }
  }

  lemma WorkShrinks(m: Master, task: Task, input: Input)
    requires task != Idle && !task.ToRebroadcast? && !task.Rebroadcasting?
    requires task.Draining? && m.log != [] ==> m.log[0].offset <= task.current
    ensures var (n, next) := Work(m, task, input); |n.log| + Cost(next) < |m.log| + Cost(task)
  {
    if task.Appending? { TrimIsTail(m.log + [LogEntry(m.offset, task.command)], m.maxLog); }
  }

  lemma {:induction false} StepsUseUpWork(m: Master, t: nat, input: Input)
    requires Inv(m) && Enabled(m, t)
    ensures Measure(After(m, Proceed(t, input))) < Measure(m)
  {
    hide OnceOrOwed, NoDuplicates, Distinct, Mutex, Cost, Work;
    TotalCostUpdate(m.tasks, t, Work(m, m.tasks[t], input).1);
    WorkShrinks(m, m.tasks[t], input);
  }

  predicate OnlyProceeds(es: seq<Event>) {
    forall i :: 0 <= i < |es| ==> es[i].Proceed?
  }

  /** While no new call begins, at most Measure(m) steps can be taken, in any order. */
  lemma {:induction false} WorkIsBounded(m: Master, es: seq<Event>)
    requires Inv(m) && Legal(m, es) && OnlyProceeds(es)
    ensures |es| <= Measure(m)
    decreases |es|
  {
    if es != [] {
      assert es[0].Proceed?;
      assert forall i :: 0 <= i < |es| - 1 ==> es[1..][i] == es[i + 1];
      StepsUseUpWork(m, es[0].thread, es[0].input);
      InvKept(m, es[0]);
      WorkIsBounded(After(m, es[0]), es[1..]);
    }
  }

  /** From every reachable state the calls under way can all be finished, and then every command
      ever appended has been broadcast. */
  lemma {:induction false} CallsCanFinish(m: Master) returns (es: seq<Event>)
    requires Inv(m)
    ensures Legal(m, es) && OnlyProceeds(es) && AllIdle(End(m, es))
    ensures forall id :: 0 <= id < |End(m, es).history| ==> id in End(m, es).broadcasts
    decreases Measure(m)
  {
    if AllIdle(m) {
      es := [];
    } else {
      var t := NoDeadlock(m);
      var e := Proceed(t, Input(0, true));
      StepsUseUpWork(m, t, e.input);
      InvKept(m, e);
      var rest := CallsCanFinish(After(m, e));
      es := [e] + rest;
      assert es[1..] == rest;
    }
  }

  // ---------------------------------------------------------------- building runs

  lemma {:induction false} Extend(m: Master, es: seq<Event>, e: Event)
    requires Legal(m, es) && Allowed(End(m, es), e)
    ensures Legal(m, es + [e]) && End(m, es + [e]) == After(End(m, es), e)
    decreases |es|
  {
    if es == [] {
      assert es + [e] == [e] && [e][1..] == [];
    } else {
      assert (es + [e])[1..] == es[1..] + [e];
      Extend(After(m, es[0]), es[1..], e);
    }
  }

  const GO := Input(0, true)

  /** An undisturbed run leads from m to n. */
  predicate Reached(m: Master, es: seq<Event>, n: Master) {
    Legal(m, es) && End(m, es) == n && Undisturbed(es)
  }

  lemma ReachedMeans(m: Master, es: seq<Event>, n: Master)
    requires Reached(m, es, n)
    ensures Legal(m, es) && End(m, es) == n && Undisturbed(es)
  {
  }

  lemma Call(m: Master, es: seq<Event>, n: Master, t: nat, task: Task) returns (more: seq<Event>, next: Master)
    requires Reached(m, es, n) && t < |n.tasks| && n.tasks[t] == Idle && Entry(task)
    ensures Reached(m, more, next) && next == n.(tasks := n.tasks[t := task])
  {
    Extend(m, es, Begin(t, task));
    more, next := es + [Begin(t, task)], n.(tasks := n.tasks[t := task]);
  }

  lemma Go(m: Master, es: seq<Event>, n: Master, t: nat, input: Input) returns (more: seq<Event>, next: Master)
    requires Reached(m, es, n) && Enabled(n, t)
    ensures Reached(m, more, next)
    ensures var (shared, task) := Work(n, n.tasks[t], input); next == shared.(tasks := n.tasks[t := task])
  {
    Extend(m, es, Proceed(t, input));
    more, next := es + [Proceed(t, input)], After(n, Proceed(t, input));
  }
}
