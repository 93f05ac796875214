/** In which order commands are broadcast: the log's, if calls of replicateCommand do not
    overlap; otherwise a later command can overtake an earlier one. */
module MasterOrder {
  import opened ReplicationLog
  import opened MasterProtocol
  import opened MasterSafety
  import opened MasterProgress
  import opened MasterCalls

  /** The thread is between the call of replicateCommand and the end of the broadcast. */
  predicate Replicating(task: Task) {
    task.ToAppend? || task.Appending? || Owing(task)
  }

  predicate Serial(m: Master) {
    forall t, u :: 0 <= t < u < |m.tasks| ==> !(Replicating(m.tasks[t]) && Replicating(m.tasks[u]))
  }

  predicate SerialRun(m: Master, es: seq<Event>)
    requires Legal(m, es)
    decreases |es|
  {
    Serial(m) && (es != [] ==> SerialRun(After(m, es[0]), es[1..]))
  }

  predicate InOrder(m: Master) {
    forall i :: 0 <= i < |m.broadcasts| ==> m.broadcasts[i] == i
  }

  lemma OwedIsNext(m: Master, t: nat)
    requires Serial(m) && InOrder(m) && OnceOrOwed(m) && t < |m.tasks| && Owing(m.tasks[t])
    ensures m.tasks[t].id == |m.broadcasts|
  {
    var k, mine := |m.broadcasts|, m.tasks[t].id;
    forall id ensures id in m.broadcasts <==> 0 <= id < k {
      if 0 <= id < k { assert m.broadcasts[id] == id; }
    }
    assert forall u :: 0 <= u < |m.tasks| && Owing(m.tasks[u]) ==> u == t;
    assert forall id, u :: OwedBy(m, id, u) ==> id == mine;
    assert forall id :: 0 <= id < |m.history| && id != mine ==> id in m.broadcasts;
    assert k < |m.history| && k != mine ==> k in m.broadcasts;
  }

  /** If no two calls of replicateCommand overlap, commands are broadcast in log order. */
  lemma {:induction false} SerialCallsKeepOrder(m: Master, es: seq<Event>)
    requires Inv(m) && InOrder(m) && Legal(m, es) && Undisturbed(es) && SerialRun(m, es)
    ensures InOrder(End(m, es))
    decreases |es|
  {
    if es != [] {
      assert !es[0].SetOffset?;
      assert forall i :: 0 <= i < |es| - 1 ==> es[1..][i] == es[i + 1];
      InvKept(m, es[0]);
      OrderKept(m, es[0]);
      SerialCallsKeepOrder(After(m, es[0]), es[1..]);
    }
  }

  lemma OrderKept(m: Master, e: Event)
    requires QuietDrain(m) && OnceOrOwed(m) && InOrder(m) && Serial(m) && Allowed(m, e)
    ensures InOrder(After(m, e))
  {
    if e.Proceed? && m.tasks[e.thread].Broadcasting? { OwedIsNext(m, e.thread); }
  }

  /** Two threads append a command each, and neither has broadcast it. */
  lemma BothAppend(m: Master, t: nat, u: nat, a: string, b: string) returns (es: seq<Event>, n: Master)
    requires AllIdle(m) && t < |m.tasks| && u < |m.tasks| && t != u
    ensures Reached(m, es, n)
    ensures n.history == m.history + [a, b] && n.broadcasts == m.broadcasts
    ensures n.tasks == m.tasks[t := ToBroadcast(|m.history|)][u := ToBroadcast(|m.history| + 1)]
  {
    n, es := m, [];
    assert Reached(m, es, n);
    hide Reached, Append;
    es, n := AppendBy(m, es, n, t, a);
    es, n := AppendBy(m, es, n, u, b);
  }

  /** From every state without calls under way, two threads can broadcast any two commands against
      the order they are logged in. */
  lemma {:induction false} OverlappingCallsCanReorder(m: Master, t: nat, u: nat, a: string, b: string)
      returns (es: seq<Event>)
    requires AllIdle(m) && t < |m.tasks| && u < |m.tasks| && t != u
    ensures Legal(m, es) && Undisturbed(es)
    ensures End(m, es).history == m.history + [a, b]
    ensures End(m, es).broadcasts == m.broadcasts + [|m.history| + 1, |m.history|]
    ensures !InOrder(End(m, es))
  {
    hide Reached, Reports, InOrder;
    var n;
    es, n := BothAppend(m, t, u, a, b);
    es, n := BroadcastBy(m, es, n, u);
    es, n := BroadcastBy(m, es, n, t);
    BackwardsIsNotInOrder(m, n);
    ReachedMeans(m, es, n);
  }

  lemma BackwardsIsNotInOrder(m: Master, n: Master)
    requires n.broadcasts == m.broadcasts + [|m.history| + 1, |m.history|]
    ensures !InOrder(n)
  {
    var k := |m.broadcasts|;
    assert n.broadcasts[k] == |m.history| + 1 && n.broadcasts[k + 1] == |m.history|;
  }

  lemma {:induction false} OneThreadIsSerial(m: Master, es: seq<Event>)
    requires |m.tasks| <= 1 && Legal(m, es)
    ensures SerialRun(m, es)
    decreases |es|
  {
    if es != [] { OneThreadIsSerial(After(m, es[0]), es[1..]); }
  }

  /** The order of the log is safe exactly on a master with a single thread. */
  lemma {:induction false} OrderNeedsOneThread(m: Master)
    requires Inv(m) && InOrder(m) && AllIdle(m)
    ensures (forall es :: Legal(m, es) && Undisturbed(es) ==> InOrder(End(m, es))) <==> |m.tasks| <= 1
  {
    hide Inv;
    if |m.tasks| >= 2 {
      var es := OverlappingCallsCanReorder(m, 0, 1, "a", "b");
    } else {
      forall es | Legal(m, es) && Undisturbed(es) ensures InOrder(End(m, es)) {
        OneThreadIsSerial(m, es);
        SerialCallsKeepOrder(m, es);
      }
    }
  }
}
