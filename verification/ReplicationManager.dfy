/** ReplicationManager and SlaveInfo (replication/replication_manager.cpp) as classes; each method
    is one critical section of MasterProtocol and is proved to compute its function. */
module ReplicationManagers {
  import opened Wrappers
  import opened Decimal
  import opened ReplicationLog
  import opened SlaveRegistry

  class SlaveInfo {
    const id: string
    const host: string
    const port: int
    var state: LinkState
    var lastPing: int
    var replicationOffset: int
    var isOnline: bool

    constructor (h: string, p: int)
      ensures View() == NewSlave(h, p)
    {
      id, host, port := h + ":" + IntToString(p), h, p;
      state, lastPing, replicationOffset, isOnline := Connecting, 0, 0, false;
    }

    ghost function View(): Slave
      reads this
    {
      Slave(id, host, port, state, lastPing, replicationOffset, isOnline)
    }
  }

  ghost function ViewsOf(infos: seq<SlaveInfo>): (r: seq<Slave>)
    reads infos
    ensures |r| == |infos| && forall i :: 0 <= i < |r| ==> r[i] == infos[i].View()
  {
    seq(|infos|, i requires 0 <= i < |infos| reads infos => infos[i].View())
  }

  /** A line "Replicated command to slave", with the frame prepared for the slave; the send that
      should go with it is commented out in the source. */
  datatype FramedReport = FramedReport(slave: string, frame: string)

  function FramedReports(slaves: seq<Slave>, frame: string): seq<FramedReport> {
    if slaves == [] then []
    else (if slaves[0].online then [FramedReport(slaves[0].id, frame)] else []) + FramedReports(slaves[1..], frame)
  }

  /** The reports of several commands, one broadcast after the other. */
  function AllFramedReports(slaves: seq<Slave>, entries: seq<LogEntry>): seq<FramedReport> {
    if entries == [] then []
    else FramedReports(slaves, Frame(entries[0].command)) + AllFramedReports(slaves, entries[1..])
  }

  lemma {:induction false} ReportsConcat(a: seq<Slave>, b: seq<Slave>, frame: string)
    ensures FramedReports(a + b, frame) == FramedReports(a, frame) + FramedReports(b, frame)
  {
    if a == [] {
      assert a + b == b;
    } else {
      assert (a + b)[1..] == a[1..] + b;
      ReportsConcat(a[1..], b, frame);
    }
  }

  lemma ReportsAppend(slaves: seq<Slave>, s: Slave, frame: string)
    ensures FramedReports(slaves + [s], frame)
         == FramedReports(slaves, frame) + (if s.online then [FramedReport(s.id, frame)] else [])
  {
    ReportsConcat(slaves, [s], frame);
  }

  lemma DrainOfNothing(slaves: seq<Slave>, current: int)
    ensures Drain([], current).1 == current && AllFramedReports(slaves, Drain([], current).0) == []
  {
  }

  /** The drain's first entry: broadcast if it lies above the offset, then on with the rest. */
  lemma DrainStep(slaves: seq<Slave>, log: seq<LogEntry>, current: int)
    requires log != []
    ensures var above := log[0].offset > current;
            var next := Drain(log[1..], if above then log[0].offset else current);
            && Drain(log, current).1 == next.1
            && AllFramedReports(slaves, Drain(log, current).0)
               == (if above then FramedReports(slaves, Frame(log[0].command)) else [])
                  + AllFramedReports(slaves, next.0)
  {
    hide FramedReports, Frame;
    if log[0].offset > current {
      var rest := Drain(log[1..], log[0].offset).0;
      assert ([log[0]] + rest)[1..] == rest;
    }
  }

  /** A broadcast is reported for every slave online and for no other. */
  lemma {:induction false} ReportsCoverTheOnline(slaves: seq<Slave>, frame: string)
    ensures forall m :: m in FramedReports(slaves, frame) <==>
              m.frame == frame && exists s :: s in slaves && s.online && s.id == m.slave
  {
    if slaves != [] { ReportsCoverTheOnline(slaves[1..], frame); }
  }

  predicate NoRepeats(infos: seq<SlaveInfo>) {
    forall i, j :: 0 <= i < j < |infos| ==> infos[i] != infos[j]
  }

  lemma NoRepeatsKept(kept: seq<SlaveInfo>, all: seq<SlaveInfo>, i: nat)
    requires NoRepeats(kept) && NoRepeats(all) && i < |all| && forall x :: x in kept ==> x in all[..i]
    ensures NoRepeats(kept + [all[i]]) && forall x :: x in kept + [all[i]] ==> x in all[..i + 1]
    ensures forall x :: x in kept ==> x in all[..i + 1]
  {
    assert all[i] == all[..i + 1][i];
    forall x | x in kept ensures x != all[i] && x in all[..i + 1] {
      var j :| 0 <= j < i && all[..i][j] == x;
      assert all[j] == x && all[..i + 1][j] == x;
    }
    assert forall a :: 0 <= a < |kept| ==> kept[a] in kept;
  }

  lemma ViewsOfPrefix(infos: seq<SlaveInfo>, i: nat)
    requires i < |infos|
    ensures ViewsOf(infos[..i + 1]) == ViewsOf(infos[..i]) + [infos[i].View()]
  {
  }

  /** What a connection hands to the client's send: the handshake reply, and the sync message if
      the reply went out and the slave, new ones being at 0, is behind. */
  function ConnectMessages(slaves: seq<Slave>, host: string, sent: bool, offset: int): seq<string> {
    var from := WithHost(slaves, host)[FirstAt(slaves, host)].offset;
    [HandshakeReply(offset)] + (if sent && from < offset then [SyncMessage(from, offset)] else [])
  }

  /** The handshake reply always goes out; a sync message follows exactly if the record's offset is
      raised, and names the offset before and the one after. */
  lemma {:induction false} SyncMeansRaised(slaves: seq<Slave>, host: string, now: int, sent: bool, offset: int)
    ensures var p, messages := FirstAt(slaves, host), ConnectMessages(slaves, host, sent, offset);
            var before, after := WithHost(slaves, host)[p].offset, Connect(slaves, host, now, sent, offset)[p].offset;
            && messages != [] && messages[0] == HandshakeReply(offset)
            && (before == after <==> |messages| == 1)
            && (before != after ==> messages[1..] == [SyncMessage(before, after)])
  {
    ConnectionIsHeard(slaves, host, now, sent, offset, 0, 0);
    hide HandshakeReply, SyncMessage, Connect, WithHost;
  }

  class ReplicationManager {
    const maxLog: nat
    const interval: nat
    var isMaster: bool
    var slaves: seq<SlaveInfo>
    var log: seq<LogEntry>
    var offset: int
    var reports: seq<FramedReport>
    var commandsReplicated: nat
    var bytesReplicated: nat
    var connectedSlaves: nat
    var replicationLag: int

    constructor (maxLog: nat, interval: nat, isMaster: bool)
      ensures this.maxLog == maxLog && this.interval == interval && this.isMaster == isMaster
      ensures slaves == [] && log == [] && offset == 0 && reports == []
      ensures commandsReplicated == 0 && bytesReplicated == 0 && connectedSlaves == 0 && replicationLag == 0
    {
      this.maxLog, this.interval, this.isMaster := maxLog, interval, isMaster;
      slaves, log, offset, reports := [], [], 0, [];
      commandsReplicated, bytesReplicated, connectedSlaves, replicationLag := 0, 0, 0, 0;
    }

    ghost function Views(): seq<Slave>
      reads this, slaves
    {
      ViewsOf(slaves)
    }

    method AddSlave(host: string, port: int) returns (added: bool)
      requires NoRepeats(slaves)
      modifies this`slaves
      ensures NoRepeats(slaves)
      ensures (Views(), added) == if isMaster then Add(old(Views()), host, port) else (old(Views()), false)
    {
      if !isMaster { return false; }
      for i := 0 to |slaves|
        invariant slaves == old(slaves)
        invariant forall k :: 0 <= k < i ==> !(slaves[k].host == host && slaves[k].port == port)
      {
        if slaves[i].host == host && slaves[i].port == port {
          assert Views()[i].host == host && Views()[i].port == port;
          return false;
        }
      }
      assert !Listed(Views(), host, port);
      var info := new SlaveInfo(host, port);
      slaves := slaves + [info];
      added := true;
      assert Views() == old(Views()) + [info.View()];
    }

    method RemoveSlave(id: string)
      requires NoRepeats(slaves)
      modifies this`slaves
      ensures NoRepeats(slaves)
      ensures Views() == if isMaster then Remove(old(Views()), id) else old(Views())
    {
      if !isMaster { return; }
      var kept: seq<SlaveInfo> := [];
      assert NoRepeats(kept);
      hide NoRepeats, Remove, Sweep;
      for i := 0 to |slaves|
        invariant slaves == old(slaves)
        invariant NoRepeats(kept) && forall x :: x in kept ==> x in slaves[..i]
        invariant ViewsOf(kept) == Remove(ViewsOf(slaves[..i]), id)
      {
        ViewsOfPrefix(slaves, i);
        NoRepeatsKept(kept, slaves, i);
        RemoveLast(ViewsOf(slaves[..i]), slaves[i].View(), id);
        if slaves[i].id != id {
          kept := kept + [slaves[i]];
        }
      }
      assert slaves[..|slaves|] == slaves;
      slaves := kept;
    }

    method CleanupDeadSlaves(now: int)
      requires NoRepeats(slaves)
      modifies this`slaves
      ensures NoRepeats(slaves)
      ensures Views() == Sweep(old(Views()), now, interval)
    {
      var kept: seq<SlaveInfo> := [];
      assert NoRepeats(kept);
      hide NoRepeats, Remove, Sweep;
      for i := 0 to |slaves|
        invariant slaves == old(slaves)
        invariant NoRepeats(kept) && forall x :: x in kept ==> x in slaves[..i]
        invariant ViewsOf(kept) == Sweep(ViewsOf(slaves[..i]), now, interval)
      {
        ViewsOfPrefix(slaves, i);
        NoRepeatsKept(kept, slaves, i);
        SweepLast(ViewsOf(slaves[..i]), slaves[i].View(), now, interval);
        if now - slaves[i].lastPing <= 3 * interval {
          kept := kept + [slaves[i]];
        }
      }
      assert slaves[..|slaves|] == slaves;
      slaves := kept;
    }

    method CheckSlaveHealth(now: int)
      requires NoRepeats(slaves)
      modifies slaves
      ensures Views() == Apply(old(Views()), Checking(now), interval)
    {
      for i := 0 to |slaves|
        invariant forall k :: 0 <= k < i ==> slaves[k].View() == Checked(old(slaves[k].View()), now, interval)
        invariant forall k :: i <= k < |slaves| ==> slaves[k].View() == old(slaves[k].View())
      {
        if slaves[i].isOnline && now - slaves[i].lastPing > 2 * interval {
          slaves[i].isOnline := false;
          slaves[i].state := Disconnected;
        }
      }
    }

    /** One round of pingSlaves, after its cleanup, with every ping answered. */
    method PingSlaves(now: int)
      requires NoRepeats(slaves)
      modifies slaves
      ensures Views() == Apply(old(Views()), Pinging(now), interval)
    {
      for i := 0 to |slaves|
        invariant forall k :: 0 <= k < i ==> slaves[k].View() == Pinged(old(slaves[k].View()), now)
        invariant forall k :: i <= k < |slaves| ==> slaves[k].View() == old(slaves[k].View())
      {
        if slaves[i].isOnline {
          slaves[i].lastPing := now;
        } else {
          slaves[i].state := LinkState.Connecting;
        }
      }
    }

    method HandleNewSlaveConnections()
      modifies this`connectedSlaves
      ensures connectedSlaves == OnlineCount(Views())
    {
      var online := 0;
      for i := 0 to |slaves|
        invariant online == OnlineCount(Views()[..i])
      {
        assert Views()[..i + 1] == Views()[..i] + [slaves[i].View()];
        StatisticsAppend(Views()[..i], slaves[i].View(), offset);
        if slaves[i].isOnline {
          online := online + 1;
        }
      }
      assert Views()[..|slaves|] == Views();
      connectedSlaves := online;
    }

    method UpdateSlaveStats()
      modifies this`connectedSlaves, this`replicationLag
      ensures connectedSlaves == OnlineCount(Views())
      ensures replicationLag == MeanLag(TotalLag(Views(), offset), OnlineCount(Views()))
    {
      var online, total := 0, 0;
      for i := 0 to |slaves|
        invariant online == OnlineCount(Views()[..i]) && total == TotalLag(Views()[..i], offset)
      {
        assert Views()[..i + 1] == Views()[..i] + [slaves[i].View()];
        StatisticsAppend(Views()[..i], slaves[i].View(), offset);
        if slaves[i].isOnline {
          online := online + 1;
          total := total + (offset - slaves[i].replicationOffset);
        }
      }
      assert Views()[..|slaves|] == Views();
      connectedSlaves := online;
      replicationLag := if online == 0 then 0 else if total >= 0 then total / online else -((-total) / online);
    }

    /** handleSyncRequest; what is returned is also sent to the client if it is behind. */
    method HandleSyncRequest(from: int) returns (answer: string, messages: seq<string>)
      ensures answer == SyncAnswer(offset - from)
      ensures messages == if offset - from > 0 then [answer] else []
    {
      var behind := offset - from;
      if behind <= 0 { return "SYNC:OK:0", []; }
      answer := "SYNC:START:" + IntToString(behind);
      messages := [answer];
    }

    method UpdateSlavePing(id: string, now: int)
      requires NoRepeats(slaves)
      modifies slaves
      ensures Views() == Heard(old(Views()), id, now)
    {
      for i := 0 to |slaves|
        invariant forall k :: 0 <= k < i ==> !Named(slaves[k].View(), id)
        invariant Views() == old(Views())
      {
        if slaves[i].id == id || slaves[i].host + ":" + IntToString(slaves[i].port) == id {
          FirstNamedIs(Views(), id, i);
          slaves[i].lastPing := now;
          slaves[i].isOnline := true;
          return;
        }
      }
      FirstNamedIs(Views(), id, |slaves|);
    }

    method UpdateSlaveOffset(id: string, value: int)
      requires NoRepeats(slaves)
      modifies slaves
      ensures Views() == Acknowledged(old(Views()), id, value)
    {
      for i := 0 to |slaves|
        invariant forall k :: 0 <= k < i ==> !Named(slaves[k].View(), id)
        invariant Views() == old(Views())
      {
        if slaves[i].id == id || slaves[i].host + ":" + IntToString(slaves[i].port) == id {
          FirstNamedIs(Views(), id, i);
          slaves[i].replicationOffset := value;
          return;
        }
      }
      FirstNamedIs(Views(), id, |slaves|);
    }

    method LogReplicationEntry(command: string)
      modifies this`log, this`offset
      ensures log == Append(old(log), old(offset), command, maxLog) && offset == old(offset) + 1
    {
      log := log + [LogEntry(offset, command)];
      offset := offset + 1;
      while |log| > maxLog
        invariant offset == old(offset) + 1
        invariant Trim(log, maxLog) == Append(old(log), old(offset), command, maxLog)
        decreases |log|
      {
        log := log[1..];
      }
    }

    method ReplicateToSlaves(command: string)
      modifies this`reports
      ensures reports == old(reports) + FramedReports(Views(), Frame(command))
    {
      var frame := Frame(command);
      for i := 0 to |slaves|
        invariant reports == old(reports) + FramedReports(Views()[..i], frame)
      {
        assert Views()[..i + 1] == Views()[..i] + [slaves[i].View()];
        ReportsAppend(Views()[..i], slaves[i].View(), frame);
        if slaves[i].isOnline {
          reports := reports + [FramedReport(slaves[i].id, frame)];
        }
      }
      assert Views()[..|slaves|] == Views();
    }

    /** Empties the log, broadcasting what lies above the offset; nothing does as long as the log
        was only filled by LogReplicationEntry (DrainAfterAppendIsSilent). */
    method ProcessReplicationQueue()
      modifies this`log, this`offset, this`reports
      ensures log == [] && offset == Drain(old(log), old(offset)).1
      ensures reports == old(reports) + AllFramedReports(Views(), Drain(old(log), old(offset)).0)
    {
      if log == [] {
        DrainOfNothing(Views(), offset);
        return;
      }
      var current := offset;
      ghost var all := AllFramedReports(Views(), Drain(log, offset).0);
      hide FramedReports, AllFramedReports, Drain;
      while log != []
        invariant Drain(log, current).1 == Drain(old(log), old(offset)).1
        invariant reports + AllFramedReports(Views(), Drain(log, current).0) == old(reports) + all
        decreases |log|
      {
        DrainStep(Views(), log, current);
        var entry := log[0];
        if entry.offset > current {
          ReplicateToSlaves(entry.command);
          current := entry.offset;
        }
        log := log[1..];
      }
      DrainOfNothing(Views(), current);
      offset := current;
    }

    method ReplicateCommand(command: string)
      modifies this`log, this`offset, this`reports, this`commandsReplicated, this`bytesReplicated
      ensures !isMaster ==>
        && log == old(log) && offset == old(offset) && reports == old(reports)
        && commandsReplicated == old(commandsReplicated) && bytesReplicated == old(bytesReplicated)
      ensures isMaster ==>
        && log == Append(old(log), old(offset), command, maxLog) && offset == old(offset) + 1
        && reports == old(reports) + FramedReports(Views(), Frame(command))
        && commandsReplicated == old(commandsReplicated) + 1
        && bytesReplicated == old(bytesReplicated) + |command|
    {
      if !isMaster { return; }
      LogReplicationEntry(command);
      ReplicateToSlaves(command);
      commandsReplicated := commandsReplicated + 1;
      bytesReplicated := bytesReplicated + |command|;
    }

    /** The sync message, with the offset the slave is at and the one it is to reach. */
    method SendSyncCommands(info: SlaveInfo) returns (message: string)
      modifies info`replicationOffset
      ensures message == SyncMessage(old(info.replicationOffset), offset)
      ensures info.replicationOffset == offset
    {
      message := "SYNC:" + IntToString(info.replicationOffset) + ":" + IntToString(offset);
      info.replicationOffset := offset;
    }

    /** The record for the host, created and listed if there is none. */
    method FindOrCreate(host: string) returns (info: SlaveInfo, ghost p: nat)
      requires NoRepeats(slaves)
      modifies this`slaves
      ensures NoRepeats(slaves) && Views() == WithHost(old(Views()), host)
      ensures p == FirstAt(old(Views()), host) && p < |slaves| && slaves[p] == info
      ensures fresh(info) || info in old(slaves)
      ensures forall x :: x in slaves ==> x == info || x in old(slaves)
    {
      for i := 0 to |slaves|
        invariant slaves == old(slaves)
        invariant forall k :: 0 <= k < i ==> slaves[k].host != host
      {
        if slaves[i].host == host {
          FirstAtIs(Views(), host, i);
          return slaves[i], i;
        }
      }
      FirstAtIs(Views(), host, |slaves|);
      info := new SlaveInfo(host, 0);
      p := |slaves|;
      slaves := slaves + [info];
    }

    /** The record after its slave has been greeted and, if it lags, brought up to date. */
    static function Greeted(s: Slave, now: int, sent: bool, offset: int): Slave {
      var t := s.(state := LinkState.Connected, online := true, lastPing := now);
      if !sent then t.(online := false, state := Disconnected)
      else if t.offset < offset then t.(offset := offset, state := Online)
      else t
    }

    static lemma GreetedIsRegistered(slaves: seq<Slave>, host: string, now: int, sent: bool, offset: int)
      ensures var p, all := FirstAt(slaves, host), WithHost(slaves, host);
              Connect(slaves, host, now, sent, offset) == all[p := Greeted(all[p], now, sent, offset)]
    {
    }

    method Greet(info: SlaveInfo, now: int, sent: bool) returns (messages: seq<string>)
      modifies info
      ensures info.View() == Greeted(old(info.View()), now, sent, offset)
      ensures messages == [HandshakeReply(offset)]
        + (if sent && old(info.replicationOffset) < offset
           then [SyncMessage(old(info.replicationOffset), offset)] else [])
    {
      info.state := LinkState.Connected;
      info.isOnline := true;
      info.lastPing := now;
      messages := ["MASTER:OK:" + IntToString(offset)];
      if !sent {
        info.isOnline := false;
        info.state := Disconnected;
        return;
      }
      if info.replicationOffset < offset {
        info.state := Syncing;
        var message := SendSyncCommands(info);
        messages := messages + [message];
        info.state := Online;
      }
    }

    /** handleSlaveConnection for a client with the given address and handshake; sent tells whether
        the reply could be sent. Returns what it hands to the client's send. */
    method HandleSlaveConnection(valid: bool, address: string, handshake: string, now: int, sent: bool)
        returns (messages: seq<string>)
      requires NoRepeats(slaves)
      modifies this`slaves, slaves
      ensures NoRepeats(slaves)
      ensures Views() == if !valid || handshake == "" then old(Views())
                         else Connect(old(Views()), address, now, sent, offset)
      ensures messages == if !valid || handshake == "" then []
                          else ConnectMessages(old(Views()), address, sent, offset)
    {
      if !valid || handshake == "" { return []; }
      GreetedIsRegistered(Views(), address, now, sent, offset);
      var info, p := FindOrCreate(address);
      ghost var listed := Views();
      hide Connect, WithHost, Greeted, HandshakeReply, SyncMessage;
      messages := Greet(info, now, sent);
      assert Views() == listed[p := info.View()];
    }
  }
}
