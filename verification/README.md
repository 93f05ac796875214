# Skip list store: skip list, RESP codec and replication master

This project models the three parts of the store whose behaviour is hard to see from the code, and
proves what they keep.

**The skip list** (`SkipList.dfy`, on the values of `SkipListSpec.dfy`). Nodes with a `forward` array
each, a head, and a level that `insert_element` sets to the level of the node it has just made. Since
`get_random_level` is capped by that same level, the level only ever falls, every level in use carries
the same nodes, and once a deletion has emptied the list it is a plain linked list for good. Links above
the level go stale and may point to deleted nodes. Every read of a node's field in the model needs a
node that has not been deleted, so the proofs show that no operation ever follows such a link. The list
refines a finite map; `DumpFormat.dfy` and `DumpTheory.dfy` add the text format of `dump_file` and
`load_file`.

**The RESP codec** (`Resp.dfy`, its loops in `RespCodec.dfy`, theorems in `RespTheory.dfy` and
`RespLimits.dfy`). `parseArray` does not learn how many bytes the parser of an element consumed; it
serializes the element again and advances by that length. The theorems say when that is right, what
arrives when the input is cut off or malformed, and how much a hostile header can make it allocate.

**The replication master** (`ReplicationManager.dfy`, with the functions of `ReplicationLog.dfy` and
`SlaveRegistry.dfy`; `MasterProtocol.dfy` as a state machine with any number of threads and the three
mutexes, theorems in `MasterSafety.dfy`, `MasterProgress.dfy`, `MasterOrder.dfy` and
`MasterOffsets.dfy`; `MasterAccess.dfy` on what is locked and counted; `MasterCalls.dfy` ties the
machine to the class). The offset invariant of the log
makes the drain silent; that gives exactly-once broadcast and removes the one edge that would make the
lock order cyclic. `MasterOffsets.dfy` says where both results end: at an offset set from outside.
Connections, PINGs and acknowledgements come under the addresses the server gives its clients.

Conventions. A `char` stands for a byte; nothing depends on its width. `size_t` sums are unbounded,
lengths and counts being below 2^63 where `stoll` reads them back. `rand()`, the clock, the outcome of
a send, an incoming connection's address and the file's text are parameters. A draw sequence that ends
counts as ending with an even draw. The initial level is not negative. One call reads the clock once.
The loops that several operations share, the descent of the skip list for one, are methods of their own.

What the theorems show that the documentation does not say:

- The skip list degenerates: see `LevelCollapse`.
- A dumped and reloaded value gains a semicolon, and a value with a newline does not survive.
- Behind an item of an array the parser goes on at a place computed from the item's value: too far for
  a simple string or an error, not far enough for a number written with leading zeros. For a nested
  array, counted from where its own loop ends, too far by what its items gain when they are written as
  bulk strings, less the surplus characters of its header. The `...Advance` lemmas give the difference
  for every item accepted; such differences can cancel out. A null bulk string ends the array.
- A slave added with `addSlave` has never been pinged and is dropped by the next sweep. A client's address
  is `ip:port`, and the record its connection uses has that as its host and is named `ip:port:0`, or with
  another number. The client's own PING and COMMAND_ACK, looked up as `ip:port`, never reach it; they
  reach a record that `addSlave` listed for that ip and port.
- `size()` falls behind by one with every insert that succeeds.
- A replication frame that is cut off is not noticed: see `CutFrameReadsBack`.
- `handleNewSlaveConnections`, `handleSlaveConnection` and `updateSlaveStats` each read something they
  have not locked; no other step does, and nothing is changed without its lock.
- Overlapping calls of `replicateCommand` can be broadcast against the order of the log.
- `setReplicationOffset` on a running master can make it broadcast again, and deadlock: see
  `OffsetRepeatsBroadcasts` and `OffsetDeadlocks` for the exact conditions. They differ: the deadlock
  takes a client that is behind, and as clients start at 0 and no acknowledgement reaches their records,
  none is while the offset is not positive.

## Model

| member | source | states |
|---|---|---|
| SkipLists.Node.constructor | node/node.cpp:5-12 | a node has level + 1 null links |
| SkipLists.SkipList.constructor | skiplist/skiplist.cpp:8-15 | an empty list of the given level satisfies the shape and ownership invariant |
| SkipLists.SkipList.Advance | skiplist/skiplist.cpp:35-38 | on any level in use the walk ends at the last node with a smaller key, reading only nodes in the list |
| SkipLists.SkipList.Descend | skiplist/skiplist.cpp:60-72 | update[i] is, on every level, the last node with a smaller key; it is the same node on all of them |
| SkipLists.SkipList.SearchElement | skiplist/skiplist.cpp:29-50 | true exactly when the key is in the list; changes nothing |
| SkipLists.SkipList.GetRandomLevel | skiplist/skiplist.cpp:113-120 | one more than the number of odd draws, capped by the current level |
| SkipLists.SkipList.Link | skiplist/skiplist.cpp:97-104 | the new node sits between the predecessor and its successor on levels 0 to its own; higher links stay |
| SkipLists.SkipList.InsertElement | skiplist/skiplist.cpp:58-110 | returns 1 and changes nothing if the key is present, else 0 and adds the entry at its place and sets the level; keeps the invariant, leaves links above the level alone; the growth branch is dead |
| SkipLists.SkipList.Unlink | skiplist/skiplist.cpp:141-144 | the victim is bypassed on every level up to the current one; higher links stay |
| SkipLists.SkipList.LowerLevel | skiplist/skiplist.cpp:146-148 | the level drops to 0 when the head has no successor and stays otherwise |
| SkipLists.SkipList.DeleteElement | skiplist/skiplist.cpp:123-154 | removes exactly the entry with the key, deletes exactly its node, counts down; keeps the invariant and every stale link |
| SkipLists.SkipList.DumpFile | skiplist/skiplist.cpp:174-185 | writes one line per entry, keys strictly ascending |
| SkipLists.SkipList.LoadFile | skiplist/skiplist.cpp:203-222 | performs exactly the inserts the lines call for, in order, stopping where stoi throws |
| SkipLists.SkipList.Clear | skiplist/skiplist.cpp:225-229 | deletes each node from the given one to the end once, reading none after its deletion |
| SkipLists.SkipList.Destroy | skiplist/skiplist.cpp:18-20 | after the destructor every node ever created has been deleted exactly once |
| SkipLists.SkipList.Perform | skiplist/skiplist.cpp:28-154 | any operation takes the step of the value model and keeps the invariant |
| SkipLists.Lifetime | skiplist/skiplist.cpp:8-154 | for any operations and draws the replies are those of a map that starts empty; the nodes allocated are the head and one for each insert that succeeded, and at the end each of them has been deleted exactly once |
| SkipLists.StaleLink | skiplist/skiplist.cpp:106-148 | a valid list whose head still points, on an unused level, to a deleted node |
| SkipListTheory.StepRefinesMap | skiplist/skiplist.cpp:28-154 | each operation acts on the entries as on a finite map, reply included, and keeps them sorted |
| SkipListTheory.RunRefinesMap | skiplist/skiplist.cpp:28-154 | so does every sequence of operations, whatever the draws |
| SkipListTheory.RandomLevelRange | skiplist/skiplist.cpp:113-120 | the drawn levels are exactly 1 to the current level, or 0 when that is 0 |
| SkipListTheory.RandomLevelIs | skiplist/skiplist.cpp:113-120 | k odd draws before an even one give the smaller of k + 1 and the current level |
| SkipListTheory.LevelCollapse | skiplist/skiplist.cpp:84-148 | over any run the level never grows, stays at or below the level drawn for every node inserted so far, and is 0 for good once a deletion empties the list |
| SkipListTheory.LevelIsAttained | skiplist/skiplist.cpp:84-148 | the level after a run is the one before it, one drawn by an insert that succeeded, or 0 after a deletion that emptied the list; by LevelCollapse it is the least of these |
| SkipListTheory.CounterDrifts | skiplist/skiplist.cpp:150-234 | over any run size() falls behind the number of keys by exactly the number of inserts that succeeded |
| SkipListTheory.ReplayIsIdempotent | skiplist/skiplist.cpp:58-154 | from any map, running a log of operations twice equals running it once |
| SkipListTheory.EffectiveReplays | server/redis_handler.cpp:170-180 | leaving out the inserts that were refused changes neither the run nor a replay onto its result |
| DumpTheory.LoadMerges | skiplist/skiplist.cpp:203-222 | loading any text keeps present values and takes the first pair for a new key; loading it again changes nothing |
| DumpTheory.FirstPairWins | skiplist/skiplist.cpp:58-82 | the map of a list of pairs holds the first value for each key |
| DumpTheory.ColonlessLinesDoNothing | skiplist/skiplist.cpp:195-201 | lines without a colon can be left out although the pair in the buffers is inserted again |
| DumpTheory.LinesAreSplit | skiplist/skiplist.cpp:210 | getline splits at newlines; the last line needs none and an empty rest is no line |
| DumpTheory.LineInserts | skiplist/skiplist.cpp:195-216 | a line is cut at its first colon; it inserts its pair, nothing if key or value is empty, and ends the loading if stoi refuses the key |
| DumpTheory.ColonlessLineRepeats | skiplist/skiplist.cpp:195-216 | a line without a colon does what the last line with one did |
| DumpTheory.DumpHasOneLinePerEntry | skiplist/skiplist.cpp:178-181 | with newline-free values getline reads the dump back line by entry |
| DumpTheory.DumpThenLoad | skiplist/skiplist.cpp:174-222 | loading a dump into an empty list restores every key with a semicolon appended to its value, exactly when no value contains a newline |
| Decimal.PrintParse | network/redis_protocol.cpp:79-85 | a printed integer is read back whatever follows, unless a digit follows |
| Decimal.NumberStarts | network/redis_protocol.cpp:139-141 | a text is a number only if it starts with a digit, a sign or one of the six blanks of isspace |
| Decimal.BlanksAndPlus | network/redis_protocol.cpp:139-141 | stoll skips blanks and a plus sign in front of the digits |
| Decimal.LeadingZeros | network/redis_protocol.cpp:139-141 | and so are zeros in front of a number |
| Resp.Upper | network/redis_protocol.cpp:58 | keeps the length, replaces each lower-case letter by its upper-case one and changes nothing else |
| Decimal.PrintIsShortest | network/redis_protocol.cpp:136-145 | of all texts that parse to a number the printed one is the only shortest |
| RespCodec.ReadLine | network/redis_protocol.cpp:208-220 | the text up to a carriage return; the position after CRLF, or at the carriage return if none follows |
| RespCodec.ReadBytes | network/redis_protocol.cpp:222-230 | the next bytes, or nothing and no move when there are too few |
| RespCodec.ParseBulkString | network/redis_protocol.cpp:147-172 | computes the bulk string parser's value and final position |
| RespCodec.Parse | network/redis_protocol.cpp:6-22 | terminates on every input with the value of the parsing function |
| RespCodec.ParseItems | network/redis_protocol.cpp:186-200 | the loop that advances by re-serialized lengths reads the items of the parsing function, and ends as far behind its start as these lengths add up to |
| RespCodec.ParseArray | network/redis_protocol.cpp:174-206 | the array parser computes the parsing function; its position is behind the header line and all advances |
| RespCodec.ParseCommand | network/redis_protocol.cpp:42-69 | the upper-cased first string and the other strings in order |
| RespCodec.CreateArray | network/redis_protocol.cpp:91-97 | header, then every value as a bulk string |
| RespTheory.ParseBulkFrame | network/redis_protocol.cpp:83-85 | an encoded string parses back whatever its bytes and whatever follows |
| RespTheory.BulkConsumed | network/redis_protocol.cpp:83-172 | and the parser stops right behind its last byte |
| RespTheory.ParseIntegerFrame | network/redis_protocol.cpp:79-81 | so does every 64-bit integer |
| RespTheory.IntegerConsumed | network/redis_protocol.cpp:79-145 | and there too the parser stops right behind its last byte |
| RespTheory.SimpleRoundTrip | network/redis_protocol.cpp:71-77 | a simple string or an error is read back exactly if it has no carriage return |
| RespTheory.ParseIsNull | network/redis_protocol.cpp:6-172 | exactly which texts parse to null: empty ones, other first bytes, lengths and numbers that do not parse, negative lengths, strings that are too short |
| RespTheory.ScalarElements | network/redis_protocol.cpp:186-200 | over canonically encoded scalars the advance is the length consumed: they are read one by one and parsing goes on right behind them |
| RespTheory.CanonicalArrayRoundTrip | network/redis_protocol.cpp:174-206 | an array of canonically encoded strings and integers parses to exactly those values |
| RespTheory.CreateArrayRoundTrip | network/redis_protocol.cpp:91-97 | parsing createArray's output gives its strings, with any bytes behind it |
| RespTheory.CommandRoundTrip | network/redis_protocol.cpp:42-69 | parseCommand of createArray gives the upper-cased name and exactly the arguments, for arbitrary bytes and any trailing bytes |
| RespTheory.CommandNeedsArray | network/redis_protocol.cpp:42-60 | only a non-empty array gives a command, every other input the empty one; the name is empty if the first item is no string |
| RespTheory.OtherItemsAreSkipped | network/redis_protocol.cpp:62-67 | an item that is no string is left out of the arguments |
| RespTheory.DecodeSerialize | network/redis_protocol.cpp:24-40 | parsing an encoded tree, and again the strings its arrays come back with, yields the tree without its null items |
| RespTheory.DecodeSerializeExact | network/redis_protocol.cpp:24-40 | the tree itself comes back exactly when it has no null items |
| RespTheory.SerializeInjective | network/redis_protocol.cpp:24-40 | two trees have the same encoding exactly when they differ only in null items |
| RespLimits.FittingIsMaximal | network/redis_protocol.cpp:91-97 | the number of leading strings whose encodings lie whole within the first bytes |
| RespLimits.ParseCutBulk | network/redis_protocol.cpp:147-172 | a bulk string cut off anywhere parses to null |
| RespLimits.TruncationSafety | network/redis_protocol.cpp:174-206 | any byte prefix of an encoded array parses to null, for at most one byte, or to exactly the leading strings that arrived whole |
| RespLimits.ParseIsModerate | network/redis_protocol.cpp:174-206 | whatever count a header declares, no null item at any depth, and an array of k items takes at least FewestBytes(k) bytes: a header that can declare k, four bytes for every item but the last, one for the last |
| RespLimits.BoundIsTight | network/redis_protocol.cpp:174-206 | for every k that a header can declare, an input of exactly FewestBytes(k) bytes gives k items, so the bound is exact for each k |
| RespLimits.ParseIsLight | network/redis_protocol.cpp:174-206 | the whole result, at all depths together, weighs at most three more than the input has bytes, at four per value plus the bytes of its strings |
| RespLimits.IntegerAdvance | network/redis_protocol.cpp:194-196 | on every integer accepted, whatever ends its line: the advance minus the bytes consumed is 2 if the CRLF is missing, less the surplus characters of the number, which are none exactly when it is written canonically |
| RespLimits.BulkAdvance | network/redis_protocol.cpp:147-196 | on every bulk string accepted: the same with the length, and with 2 more if the bytes after the text are no CRLF |
| RespLimits.SimpleAdvance | network/redis_protocol.cpp:124-134 | on every simple string or error the advance is too long, by its length's digits, 2, and 2 more without CRLF |
| RespLimits.ArrayAdvance | network/redis_protocol.cpp:174-206 | on every array accepted, whatever its items and line ends: the advance minus where the array's own loop ends is 2 if the header's CRLF is missing, less the surplus characters of the header line, plus what its items gain by being written as bulk strings |
| RespLimits.PaddedArrayAdvance | network/redis_protocol.cpp:174-206 | on a nested array of canonical scalars the advance minus the array's bytes is what its items gain less the zeros its header is padded with; so a canonical one is left exactly only if it is empty, and a padded one may be |
| RespLimits.MalformedItemEndsArray | network/redis_protocol.cpp:191-199 | the scalars before a malformed item are returned, nothing from it on |
| RespLimits.NullBulkIsNull | network/redis_protocol.cpp:152-154 | a null bulk string is such an item |
| ReplicationLog.FrameRoundTrip | replication/replication_manager.cpp:777-792 | a framed command comes back whatever it contains and whatever follows, exactly when its length fits an int; otherwise stoi throws |
| ReplicationLog.FramesArePrefixFree | replication/replication_manager.cpp:777-781 | two texts that start with frames and are equal start with the same command and go on equally |
| ReplicationLog.CutFrameReadsBack | replication/replication_manager.cpp:783-792 | a frame cut off anywhere reads back without an error as what arrived of the command |
| ReplicationLog.NegativeLengthTakesAll | replication/replication_manager.cpp:783-792 | a negative length takes all that follows |
| ReplicationLog.FrameIsShortest | replication/replication_manager.cpp:777-792 | a frame is a shortest text that reads back as the command exactly for commands of 1 to 99 characters |
| ReplicationLog.MessagesReadBack | replication/replication_manager.cpp:378-425 | the offsets can be read back from the handshake reply and the sync message |
| ReplicationLog.SyncAnswerReadsBack | replication/replication_manager.cpp:498-518 | a slave that is not behind is answered SYNC:OK:0, any other with the number it is behind |
| ReplicationLog.AppendKeepsLogged | replication/replication_manager.cpp:765-775 | the log stays the tail of the history: consecutive offsets ending below the next one, at most the allowed number |
| ReplicationLog.TrimIsTail | replication/replication_manager.cpp:771-774 | trimming keeps exactly the youngest entries there is room for |
| ReplicationLog.DrainIsSilent | replication/replication_manager.cpp:263-288 | the drain broadcasts something exactly when an entry lies above the offset, and keeps the offset if not |
| ReplicationLog.DrainAfterAppendIsSilent | replication/replication_manager.cpp:263-288 | on a log filled only by logReplicationEntry it broadcasts nothing |
| SlaveRegistry.SlaveIdInjective | replication/replication_manager.h:47-51 | host:port determines host and port even when the host contains colons |
| SlaveRegistry.ApplyKeepsDistinct | replication/replication_manager.cpp:113-153 | every operation on the list keeps the ids pairwise distinct |
| SlaveRegistry.RegisterKeepsDistinct | replication/replication_manager.cpp:351-397 | so does a connection |
| SlaveRegistry.AddAppends | replication/replication_manager.cpp:121-133 | adding keeps every record and appends an offline one at offset 0, never heard of, and says so, exactly if no record has the host and port |
| SlaveRegistry.RemoveDropsOne | replication/replication_manager.cpp:136-153 | removing an id takes out exactly its one record |
| SlaveRegistry.FirstMatchIsOnlyMatch | replication/replication_manager.cpp:486-496 | the loops that stop at the first match miss no record |
| SlaveRegistry.ConnectionCatchesUp | replication/replication_manager.cpp:351-397 | after a connection the host's record is online and not behind; no other record changes |
| SlaveRegistry.ConnectionIsHeard | replication/replication_manager.cpp:371-397 | whether the reply goes out or not: the record was heard of now and passes sweeps for three intervals, is online exactly if the reply went out, and disconnected at its old offset if not; the others stay |
| SlaveRegistry.PingKeepsAlive | replication/replication_manager.cpp:704-730 | after a round of pings an online record passes health checks for two and sweeps for three intervals, an offline one stays as long as it would have |
| SlaveRegistry.CheckDropsNone | replication/replication_manager.cpp:313-327 | a health check takes a record offline exactly after more than two silent intervals, and brings no record's sweep nearer |
| SlaveRegistry.OnlineCountIs | replication/replication_manager.cpp:293-303 | the count is the number of places with a slave online |
| SlaveRegistry.MeanLagBetween | replication/replication_manager.cpp:293-310 | the published lag lies between the least and the greatest lag of a slave online |
| SlaveRegistry.MeanLagTruncates | replication/replication_manager.cpp:309 | it is rounded towards zero, and 0 without slaves online |
| SlaveRegistry.OwnRecordIsNotFound | replication/replication_manager.cpp:439-472 | a client's own PING and acknowledgement leave the record its connection uses alone, whether that is new or was listed before |
| SlaveRegistry.ClientMessagesReach | replication/replication_manager.cpp:441-529 | a PING or acknowledgement from host:port changes the record listed for that host and port, as addSlave lists it, and no other |
| SlaveRegistry.NoClientHasTheId | network/tcp_server.cpp:197-198 | a record made for a connecting client has an id that no client's address equals, so no acknowledgement reaches it |
| SlaveRegistry.AddedSlaveIsSwept | replication/replication_manager.cpp:744-758 | an added slave survives a sweep only while the clock is within three intervals of its epoch |
| ReplicationManagers.ReportsCoverTheOnline | replication/replication_manager.cpp:681-693 | a broadcast is reported for every slave online and for no other |
| ReplicationManagers.SyncMeansRaised | replication/replication_manager.cpp:378-425 | the handshake reply always goes out; a sync message follows exactly if the record's offset is raised, and names both offsets |
| ReplicationManagers.ReplicationManager.AddSlave | replication/replication_manager.cpp:113-134 | appends a record unless the address is listed or this is no master |
| ReplicationManagers.ReplicationManager.RemoveSlave | replication/replication_manager.cpp:136-153 | drops the records with the id, on a master |
| ReplicationManagers.ReplicationManager.CleanupDeadSlaves | replication/replication_manager.cpp:744-758 | drops the records not heard of for more than three intervals |
| ReplicationManagers.ReplicationManager.CheckSlaveHealth | replication/replication_manager.cpp:313-327 | marks the records not heard of for more than two intervals |
| ReplicationManagers.ReplicationManager.PingSlaves | replication/replication_manager.cpp:704-730 | refreshes the records online and marks the others as connecting |
| ReplicationManagers.ReplicationManager.HandleNewSlaveConnections | replication/replication_manager.cpp:243-257 | counts the slaves online |
| ReplicationManagers.ReplicationManager.UpdateSlaveStats | replication/replication_manager.cpp:290-311 | publishes the number of slaves online and their mean lag |
| ReplicationManagers.ReplicationManager.HandleSyncRequest | replication/replication_manager.cpp:498-518 | answers how far the slave is behind, and sends the answer exactly if it is |
| ReplicationManagers.ReplicationManager.UpdateSlavePing | replication/replication_manager.cpp:486-496 | refreshes the first record with the name |
| ReplicationManagers.ReplicationManager.UpdateSlaveOffset | replication/replication_manager.cpp:520-529 | sets the offset of the first record with the name |
| ReplicationManagers.ReplicationManager.HandleSlaveConnection | replication/replication_manager.cpp:329-402 | finds or creates the record by host, marks it, and brings it up to date if it lags; hands the client the handshake reply, and the sync message exactly if that went out and the slave lags |
| ReplicationManagers.ReplicationManager.SendSyncCommands | replication/replication_manager.cpp:404-425 | the sync message names the slave's old offset and the master's; the slave's offset becomes the master's |
| ReplicationManagers.ReplicationManager.LogReplicationEntry | replication/replication_manager.cpp:765-775 | appends the entry, counts the offset up, trims from the front |
| ReplicationManagers.ReplicationManager.ProcessReplicationQueue | replication/replication_manager.cpp:263-288 | empties the log, broadcasting and reporting what lies above the offset |
| ReplicationManagers.ReplicationManager.ReplicateToSlaves | replication/replication_manager.cpp:681-693 | prepares the frame and reports it for each slave online, in list order |
| ReplicationManagers.ReplicationManager.ReplicateCommand | replication/replication_manager.cpp:174-193 | on a master: log, broadcast and count the command; otherwise nothing |
| MasterSafety.InvKept | replication/replication_manager.cpp:174-330 | every step of every thread keeps mutual exclusion, the log, the drain's silence, once-or-owed broadcast, distinct slaves, and that no record of a client has a negative offset |
| MasterAccess.ChangesAreLocked | replication/replication_manager.cpp:110-775 | every step that changes the list, the log, the offset or the statistics holds the mutex for it |
| MasterAccess.ListIsReadLocked | replication/replication_manager.cpp:243-330 | what a step does depends on the list only under the slaves' mutex, but for handleNewSlaveConnections |
| MasterAccess.LogIsReadLocked | replication/replication_manager.cpp:263-288 | and on the log only under the log's mutex |
| MasterAccess.OffsetIsReadLocked | replication/replication_manager.cpp:290-400 | and on the offset too, but for handleSlaveConnection and updateSlaveStats |
| MasterAccess.UnlockedReads | replication/replication_manager.cpp:243-400 | those three do depend on what they have not locked |
| MasterAccess.SumsStayCurrent | replication/replication_manager.cpp:290-311 | between summing up and publishing the list cannot change: the number of slaves online is right when updateSlaveStats publishes it |
| MasterAccess.EveryCommandCountedOnce | replication/replication_manager.cpp:174-193 | in every run, offsets set from outside or not, commands and bytes counted plus those still to be counted are those appended, and with no call under way none is missing |
| MasterSafety.ExactlyOnce | replication/replication_manager.cpp:263-288 | in every run no command is broadcast twice, none is reported twice for a slave, and with no call under way every command appended has been broadcast |
| MasterSafety.RunOnlyExtends | replication/replication_manager.cpp:765-775 | history, broadcasts, reports and answers are never taken back |
| MasterSafety.BroadcastIsReported | replication/replication_manager.cpp:681-693 | a command being broadcast is reported for every slave online at that moment, and the report stays whatever happens afterwards |
| MasterSafety.RecordedKept | replication/replication_manager.cpp:272-283 | with offsets set from outside too, the log holds the last commands of the history, and a rebroadcast names the front entry's |
| MasterSafety.AlwaysRecorded | replication/replication_manager.cpp:272-283 | so it is in every state any run reaches from the start, offsets set from outside or not |
| MasterCalls.ReplicateAlone | replication/replication_manager.cpp:174-193 | run without interruption, the protocol's steps log, broadcast and count the command once, as ReplicateCommand does |
| MasterCalls.ConnectAlone | replication/replication_manager.cpp:329-402 | run without interruption for any client, they change the list as HandleSlaveConnection does |
| MasterCalls.EditAlone | replication/replication_manager.cpp:113-153 | run without interruption, they change the list as the list operations do |
| MasterCalls.DrainAlone | replication/replication_manager.cpp:263-288 | run without interruption on any log and offset, they broadcast, in order, what ProcessReplicationQueue does |
| MasterCalls.DrainTakesTheHighest | replication/replication_manager.cpp:263-288 | a drain broadcasts, in log order and once each, exactly the entries above the offset and above all entries before them, and ends with the highest offset seen |
| MasterCalls.AnswerAlone | replication/replication_manager.cpp:498-518 | run without interruption, the protocol's steps answer as HandleSyncRequest does |
| MasterCalls.CountOnlineAlone | replication/replication_manager.cpp:243-257 | run without interruption, they count as HandleNewSlaveConnections does |
| MasterCalls.LagAlone | replication/replication_manager.cpp:290-311 | run without interruption, they publish what UpdateSlaveStats does |
| MasterCalls.CallsReportAsTheClass | replication/replication_manager.cpp:174-288 | in every state AlwaysRecorded speaks of, what ReplicateAlone and DrainAlone report is, command by command and frame by frame, what the methods ReplicateCommand and ProcessReplicationQueue report |
| MasterProgress.LocksAreOrdered | replication/replication_manager.cpp:263-311 | slaves before log and slaves before stats; whoever holds the log waits for nothing |
| MasterProgress.WaitChainsAreShort | replication/replication_manager.cpp:290-311 | the holder of a wanted lock runs, or waits for one whose holder runs |
| MasterProgress.NoDeadlock | replication/replication_manager.cpp:263-288 | with a call under way some thread can step whenever no drain broadcasts, so in every state reached without setReplicationOffset |
| MasterProgress.WorkIsBounded | replication/replication_manager.cpp:272-283 | without new calls only a bounded number of steps can be taken, in any order |
| MasterProgress.CallsCanFinish | replication/replication_manager.cpp:174-193 | from every reachable state the calls under way can finish, and then every command has been broadcast |
| MasterOffsets.SetOffsetRebroadcasts | replication/replication_manager.h:111 | an offset set from outside makes the drain broadcast again exactly when it lies below the newest entry's |
| MasterOffsets.OffsetRepeatsBroadcasts | replication/replication_manager.cpp:263-288 | set between calls, an offset lets some run broadcast a command twice if and only if the log is not empty and the offset lies below the newest entry's |
| MasterOffsets.OffsetDeadlocks | replication/replication_manager.cpp:263-416 | set between calls, an offset lets some run get stuck for good if and only if there are two threads, the log is not empty, the offset lies below the newest entry's, that entry's is above one, and the offset is positive or comes up to one in fewer appends than the log has room for |
| MasterOffsets.HarmlessOffsets | replication/replication_manager.cpp:263-288 | in every run where each offset set, at whatever moment, is not below that of an entry then in the log, nothing is broadcast twice and no state is stuck |
| MasterOffsets.LowNeverStuck | replication/replication_manager.cpp:351-416 | while the offset is not positive no connection waits for the log, so no run is stuck; nor is one later if by then the entries above one have left the log |
| MasterOffsets.OffsetFromOutsideDeadlocks | replication/replication_manager.h:111 | from the start some run with offsets set from outside gets stuck if and only if there are two threads and room for a log entry |
| MasterOrder.SerialCallsKeepOrder | replication/replication_manager.cpp:174-184 | if calls of replicateCommand do not overlap, commands are broadcast in log order |
| MasterOrder.OverlappingCallsCanReorder | replication/replication_manager.cpp:174-184 | from every state without calls under way, any two threads and any two commands have a run that logs them in one order and broadcasts them in the other |
| MasterOrder.OrderNeedsOneThread | replication/replication_manager.cpp:174-184 | so every run from such a state broadcasts in log order if and only if the master has at most one thread |

## Left out

- search_element runs without the mutex in the original; here each skip list operation is atomic.
- current_level_, display_list and the console output of the skip list.
- Keys are unbounded integers in the list; the 32-bit range matters where stoi reads them and is stated there.
- MasterProtocol lets every thread begin any call at any time; masterLoop and pingSlaves, which call in a fixed order, have a subset of those runs. The reads without a mutex that MasterAccess.UnlockedReads names are atomic steps here, which C++ does not promise.
- The mutex inside ClientConnection::send, which is taken last and held across no other lock.
- MasterProgress.NoDeadlock: requires that no drain is broadcasting, because with an offset set too low the master does deadlock; MasterOffsets.OffsetDeadlocks says exactly when.
- MasterOrder.SerialCallsKeepOrder: one direction only, because overlapping calls may still happen to be broadcast in order; that they need not is OverlappingCallsCanReorder.
- MasterOffsets.OffsetDeadlocks: the exact condition is for an offset set while no call is under way; for one set at any moment HarmlessOffsets gives the harmless half.
- Delivery to the slaves: replicateToSlaves prepares the frame and prints "Replicated command to slave" for each slave online, but its send is commented out (replication/replication_manager.cpp:686-692). `reports` records those lines, with the frame that was prepared.
- handleReplicationMessage, which only takes messages apart for the operations modelled; getSlaves; last_sync_time.
- The slave's side (slaveLoop, connectToMaster, syncWithMaster, handleMasterCommands), which works on simulated constants.
- The append-only file as text: its plain lines are not RESP, so only replay of operations is modelled.
- GET, KEYS and FLUSH replies, INFO, the TCP server, sockets, threads' timing, logging, configuration and signal handling.
