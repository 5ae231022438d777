# NetworkTables and the support library beneath it: a verified model

The repository carries ntcore, the client and server of FIRST's NetworkTables protocol (revisions 2.0 and 3.0), and the
part of LLVM's support library that it stands on. This project models the parts with the most behaviour and proves
what they are for.

* **Replicated tables.** A server owns the ids of a table of named values; clients mirror it through assign, update,
  flags, delete and clear messages guarded by 16-bit serials, sent through a queue that merges messages in place.
  `Tables` holds every locked section of `Storage` as a transition on an abstract table; the class in `Storage.dfy`
  implements the transitions on entry objects and raw pointers, and `Effects` proves what callers are promised of them.
  `OutgoingQueue` is the merging queue and `Coalescing` proves what a merged batch means. `Mirror`, `Replica`, `Direct`
  and `Sender` prove that a listener mirrors the server over every run, with merging and without, `Writes` that a client's
  own writes arrive everywhere, `Handshake` and
  `Dispatch` that a handshake makes two tables equal, `TableRuns` that ids are never reused and that the dirty flag is
  sound, `Restart` that a saved table is restored, `Updates` and `Serials` that updates may arrive in any order.
* **Hash tables.** `Probing` is the number theory of quadratic probing and `Buckets` what the open-addressed tables have
  in common; `StringMap` and `DenseMap` are proved to be finite maps and `SmallPtrSet` a finite set, with exact counters
  and lookups that end. `LoadRules` holds the sizes they choose.
* **Codecs.** `Wire` with `WireEncoder` and `WireDecoder` is the protocol's byte format, written out byte by byte in
  `WireBytes`; `Framing` proves where a message ends; `RpcCodec` is the format of RPC definitions and values; `StringTokens`, `Base64`, `PersistentFile` and `PersistentStream` are the text format of saved
  tables, written out in `FileText`; `Utf`, `UtfConvert` and `Converters` are the Unicode converters.
* **Fast forms.** `StringSearch` is the skip-table search, `Hashing` the three forms of the byte-stream hash,
  `Saturating` the overflow-exact arithmetic, `OutStream` the buffered output stream.

Objects that the source updates in place are classes here, loops are loops; each such method is proved equal to a
function of the state before it, and the theorems are about those functions.

Where the code does less than one would expect, the model follows the code and a lemma says exactly when the expected
property holds:

* Merging keeps its meaning except in three cases (`Replica.MergeIsFaithful`): flags updates and assignments of one entry
  overtake each other (`Replica.FlagsOvertakenFails`); serials are merged away, and the one that is left is more than 2^15
  increments ahead of the one last posted, so that the client refuses it (`Replica.OutOfReachFails`); or a clear drops
  waiting news of a persistent entry that the clear itself spares (`Replica.ClearDropsUpdate`). A sender can tell exactly
  whether something is lost from its own tables, serials and queue (`Sender.SenderKnowsLoss`); fewer than 2^14 serial
  steps between two posts rule out the second case (`Sender.PacedRun`).
* An entry that a client first sees in an assignment starts at serial 0 whatever the assignment's serial
  (`Vision/src/Storage.cpp:130-134`). Sent one by one, so exactly one serial, 2^15 + 1, is refused by the client after the
  server has taken it (`Direct.FaithfulUnlessOverrun`, `Direct.OverrunIsLost`); when the entry was created and changed
  within one merged batch, the client lags by all steps of the batch (`Replica.MergedCreationLags`).
* For the same reason the first write of a client can be lost: where the server made an entry at serial 1 the client begins
  it at 0, sends its first new value under serial 1, and the server drops it (`Writes.FirstWriteIsLost`). A write arrives
  exactly when its serial is one the server takes (`Writes.WriteArrives`).
* A client that keeps its newer values on reconnecting reports them under the id 0xffff, and they are lost
  (`Handshake.ReconnectUpdatesAreLost`, `Handshake.ReconnectLosesUpdate`). So a handshake makes the two tables equal exactly
  when the rows the client keeps are those the server has, and no entry at the server lacks an id that the client has not
  just the same (`Handshake.HandshakeEnds`).
* A raw value or an RPC definition sent to a peer of revision 2.0 is cut off, the sender does not look at the encoder's
  error (`Vision/src/NetworkConnection.cpp:194-205`), and the receiver never reads it as what it was
  (`Wire.BackUnlessRefused`, `Wire.RefusedIsMisread`, `Wire.MisreadPasses`).
* Loading a file, redefining a persistent entry as an RPC, and a client's first sight of a persistent entry change what a
  save would write without setting the dirty flag (`TableRuns.StepDirty`).
* A double quote in a saved string comes back as a backslash, and a backslash at the end of a name or of an array element
  hides the closing quote; a double comes back only if the library reads it back from what it printed of it
  (`PersistentFile.SaveLoad`).
* The comment in `Vision/src/Storage.cpp:224` says that an update is ignored unless its serial is higher; a serial exactly
  2^15 ahead is neither higher nor lower, and is taken (`Serials.BehindIsDistance`).
* Deleting all entries is documented to delete all of them (`Vision/include/ntcore_cpp.h:154-163`); persistent ones stay
  (`Effects.DeleteAllEffect`).
* Hashing an iterator over items that do not all fit 64 bytes and whose size does not divide 64, such as pairs of 12 bytes,
  fails an assertion (`Hashing.HashIterated`).
* Lengths from 2^31 on do not survive the ULEB128 reader (`Wire.UlebBack`, for lengths below 2^35).

## Model

| member | source | states |
|---|---|---|
| `Handshake.HandshakeEnds` | Vision/src/Dispatcher.cpp:386-551 | for any server table whose index and entries agree, any client table, a new server or one the client comes back to, and any hash-table iteration orders: running both sides of the 3.0 handshake and draining all replies leaves the server with its rows as they were and the client's own beside them, and the client with the same, except that it keeps its own under shared names where the server's serial is not ahead and misses names that have no id at the server; the two tables are the same if and only if what is kept equals what the server has and the client has all names without an id as the server has them |
| `Handshake.HandshakeConverges` | Vision/src/Dispatcher.cpp:386-551 | so with a new server all of whose entries have ids the handshake leaves the same rows (names, ids, values, flags, serials) and the same id index on both sides; shared names carry the server's data, client-only names keep their value and flags, no name is lost |
| `Dispatching.TranscriptConverges` | Vision/src/Dispatcher.cpp:386-551 | the same from the message streams: both control loops accept the other side's batch, with any keep-alives between its messages, and the tables end up equal if and only if the client has the server's names without an id as the server has them, and so always when there are none |
| `Dispatching.RepliesUnmerged` | Vision/src/NetworkConnection.cpp:221-251 | the server's answers and the client's updates are about different entries, so their queues hand them on as they were queued |
| `Coalescing.DifferentUnmerged` | Vision/src/NetworkConnection.cpp:221-251 | values of different entries are never merged |
| `Handshake.HandshakeStartsMirror` | Vision/src/Dispatcher.cpp:386-551 | two tables left by a handshake, with nothing on its way between them, satisfy the invariant of the run theorems below and are in step, so that Direct.MirrorRun starts there |
| `Handshake.ReconnectUpdatesAreLost` | Vision/src/Storage.cpp:401-440 | every update a reconnecting client generates, for any list of assignments of different names, carries the id 0xffff and is ignored by every receiver |
| `Handshake.KeptAreReported` | Vision/src/Storage.cpp:401-440 | in a handshake one is sent for exactly the names the client keeps, and none if and only if there are none |
| `Handshake.ReconnectLosesUpdate` | Vision/src/Storage.cpp:401-440 | it happens: a client at serial 2 comes back to a server at serial 1, its update is sent under 0xffff, and both sides end with different values |
| `Handshake.ClientAdopts` | Vision/src/Storage.cpp:390-451 | applying any prefix of the server's assignments gives exactly the named rows with an id - the server's, or the client's own where it keeps them - and leaves all others without an id; the updates sent are those for the kept names |
| `Handshake.ServerNumbers` | Vision/src/Storage.cpp:74-106 | the server answers the client's requests with consecutive fresh ids, in the order of the requests |
| `Handshake.RequestsIgnored` | Vision/src/Storage.cpp:74-77 | requests for names the server has already change nothing and are not answered |
| `Handshake.ClientLearns` | Vision/src/Storage.cpp:122-177 | the client records each answered id, keeps its own newer value, and sends an update for exactly the entries whose serial is ahead of 0 |
| `Handshake.ServerSettles` | Vision/src/Storage.cpp:213-246 | the server ends with the client's serial for each of those entries |
| `Replica.ReplicaRun` | Vision/src/NetworkConnection.cpp:221-330 | over every run of server operations, incoming messages, merging, posting and arrivals in which no merge drops flags, serials or spared news, the listener's table followed by the posted and pending messages shows exactly the server's entry under every id; once nothing is on its way both hold the same entries. Sender.MergingRun discharges the condition from what the sender sees |
| `Coalescing.CoalescingKeepsMeaning` | Vision/src/NetworkConnection.cpp:221-330 | for any batch without a clear in which each serial is ahead of the one before it and an entry keeps its name until deleted: what is left of the batch leaves an id with the same presence, name and value as the whole batch if and only if the receiver takes the value that is left over the one it held before the batch, or shows it already; if it takes it, flags are the same too when no flags update comes before an assignment of its entry |
| `Coalescing.SpanKeepsMeaning` | Vision/src/NetworkConnection.cpp:221-330 | so it is whenever the serials queued for the entry, together with the one last posted, are those of counters that go up by at most 2^15 in all, a fresh entry counting from 0 |
| `Coalescing.RisingIsOrderly` | Vision/src/SequenceNumber.cpp:12-28 | serials of such counters are each ahead of the one before, at the receiver too, which holds a new entry at serial 0 |
| `Coalescing.BatchFollows` | Vision/src/NetworkConnection.cpp:221-313 | step by step: the waiting messages of an id mean, serials aside, what the whole batch does, with the flags equal as long as no message about the id overtook flags in the queue |
| `Coalescing.NothingOvertakes` | Vision/src/NetworkConnection.cpp:221-313 | when no flags update comes before an assignment of its entry without a deletion between them, waiting flags stay behind the waiting assignment and none are overtaken |
| `Coalescing.LastingKept` | Vision/src/NetworkConnection.cpp:226-313 | for every batch: the waiting messages that are never merged - under the id 0xffff, deletions, clears, calls, responses, control messages - are exactly those of the batch in their order, but for table messages that a later clear makes pointless |
| `Replica.MergeIsFaithful` | Vision/src/NetworkConnection.cpp:221-313 | after one more message is merged into the queue the listener still ends with the server's entry under every id if and only if the waiting value is one it takes and no flags are overtaken, or the value is refused and asks for nothing new; and, for a clear, no pending news of a persistent entry is dropped |
| `Replica.OutOfReachFails` | Vision/src/NetworkConnection.cpp:226-240 | three updates whose serials are 2^14 apart, each taken when sent by itself, are merged into one that the listener refuses: the last value never arrives |
| `Replica.MergedCreationLags` | Vision/src/NetworkConnection.cpp:235-240 | an entry created and changed within one batch begins at serial 0 at the client, however far the server has come, so that the next value can be taken by the server and refused by the client |
| `Replica.FlagsOvertakenFails` | Vision/src/NetworkConnection.cpp:226-295 | an update, a flags update and an assignment, merged, leave other flags than the same three unmerged |
| `Replica.ClearDropsUpdate` | Vision/src/NetworkConnection.cpp:296-308 | an update of a persistent entry followed by a clear is lost when merged, though not when sent one by one |
| `Replica.AdvanceKeepsInv` | Vision/src/NetworkConnection.cpp:221-330 | each single step - a server operation, a post, an arrival - keeps the invariant |
| `Replica.CaughtByOwn` | Vision/src/NetworkConnection.cpp:221-295 | for the entry the message is about: shown right after merging if and only if the message is taken and overtakes no flags, or is refused and asks for nothing new |
| `Replica.CaughtByClear` | Vision/src/NetworkConnection.cpp:296-308 | for a clear: an entry is shown right if and only if what is pending leaves it as it is, in case it is persistent before or after |
| `Replica.OthersSeeTheSame` | Vision/src/NetworkConnection.cpp:221-295 | merging a message changes nothing for the entries of other ids |
| `Replica.PostedArrivesFree` | Vision/src/Storage.cpp:122-139 | a posted assignment that will create an entry finds its name unused when it arrives |
| `Replica.CaughtUpAgrees` | Vision/src/Storage.cpp:54-329 | equal views under all ids mean equal names, values, flags and ids |
| `Direct.MirrorRun` | Vision/src/Storage.cpp:54-329 | without merging: over every server run without file loads and without the overrunning serial, the listener's table followed by its message queue is the server's table, its serials trailing by at most the first step |
| `Direct.FaithfulUnlessOverrun` | Vision/src/Storage.cpp:130-134 | without merging: after one operation the listener still ends with the server's entry under every id if and only if the operation does not send serial 2^15 + 1 to an entry at serial 1 that the listener holds at 0, or sends with it only what the listener shows already |
| `Direct.OverrunIsLost` | Vision/src/Storage.cpp:213-230 | an update with serial 2^15 + 1 to such an entry is taken and passed on by the server and refused by the listener, which keeps the old value |
| `Direct.SingleArrives` | Vision/src/Storage.cpp:571-618 | such an entry arises in two steps: the server creates it at serial 1, the listener begins it at 0 |
| `Sender.SenderKnows` | Vision/src/NetworkConnection.cpp:221-313 | from its table now, its table and serials at the last post and the queue, the sender can tell whether merging a message is faithful: if and only if no flags are overtaken, at most 2^15 increments lead from the serial last posted, and at a clear no entry persistent then or now has changed since |
| `Sender.SenderKnowsLoss` | Vision/src/NetworkConnection.cpp:221-313 | and exactly what the listener will show: after the merge it still ends with the server's entry under every id if and only if a value in the span overtakes no flags, one out of the span repeats what was posted, and a clear drops nothing |
| `Sender.MergingRun` | Vision/src/NetworkConnection.cpp:221-330 | with merging: over every run in which the sender observes that condition, whatever it does and whatever other clients send, the listener's table followed by what is posted and pending is the server's table |
| `Sender.PacedRun` | Vision/src/NetworkConnection.cpp:221-330 | the same by count: serials move by fewer than 2^14 steps in all between two posts, flags and assignments of one entry are queued in turn, and no clear is queued while a message about a persistent entry waits |
| `Sender.OwnWritesRun` | Vision/src/NetworkConnection.cpp:221-330 | in particular when the server runs fewer than 2^14 operations of its own between two posts and nobody else writes |
| `Sender.UnhurriedRunIsMinded` | Vision/src/NetworkConnection.cpp:221-330 | a run that keeps within the count keeps within the span at every step, though a new entry counts from 0 at the client |
| `Sender.SafeIsUnchanged` | Vision/src/NetworkConnection.cpp:296-308 | a clear drops nothing if and only if the entries persistent at the last post or now are as they were posted |
| `Sender.QuietIsSafe` | Vision/src/NetworkConnection.cpp:296-308 | which is so if no message waits about such an entry |
| `Sender.LoudRepeats` | Vision/src/NetworkConnection.cpp:296-308 | and otherwise only if all that waits about such an entry repeats what was posted |
| `Sender.PostKept` | Vision/src/NetworkConnection.cpp:314-330 | after a post the sender's record - its own table, and for each entry the posted serial, or 0 for one not posted before - is what the listener will hold |
| `Sender.HandshakeStartsMerging` | Vision/src/Dispatcher.cpp:386-551 | a handshake leaves both sides where such runs begin |
| `Direct.ServerSerials` | Vision/src/Storage.cpp:54-329 | a server entry takes the serial of the value broadcast for it, which the entry accepts; new entries start at 0 or 1; all others keep theirs |
| `Mirror.ServerTells` | Vision/src/Storage.cpp:477-718 | the messages any server operation broadcasts tell exactly how its id-to-(name, value, flags) table moved |
| `Mirror.ClientTakes` | Vision/src/Storage.cpp:115-200 | a listening client applies each message id by id and answers nothing |
| `Writes.ServerTakes` | Vision/src/Storage.cpp:157-329 | what a server makes of an incoming assignment under an id, update, flags update, deletion or clear, id by id; if it changes something everybody but its sender is told, in the same words, and otherwise nobody is |
| `Writes.ServerEnters` | Vision/src/Storage.cpp:74-106 | a request for an id: an absent name is entered under the next id at serial 0 and everybody is told, the one who asked included; a name that is there changes nothing |
| `Writes.ClientTells` | Vision/src/Storage.cpp:477-718 | the message a client sends for a write to entries that have ids tells exactly how its table moved, with the serial the entry has then; it sends none only if nothing moved |
| `Writes.WriteArrives` | Vision/src/Storage.cpp:477-718 | a client writes where it, the server and another client show the same: the server comes to show what the writer shows if and only if the serial is one the server takes; then the other client is told and comes to show it under the same condition on its side, and the writer hears nothing back; a write that sends nothing changed nothing that shows |
| `Writes.InStepIsInTime` | Vision/src/Storage.cpp:559-566 | the condition holds wherever client and server have the same serials |
| `Writes.WritesArrive` | Vision/src/Storage.cpp:477-718 | any number of writes of a client in a row, taken by the server in their order, leave both sides showing the same under the same serials, if they began so |
| `Writes.FirstWriteIsLost` | Vision/src/Storage.cpp:130-134 | it can fail: an entry made by the server at serial 1 begins at 0 at the client, and the client's first new value for it is dropped by the server |
| `Writes.CreationArrives` | Vision/src/Storage.cpp:74-200 | an entry that a client creates: the server enters it and answers, the client learns its id and sends what is newer, and in the end the server, the writer and another client show the same |
| `Updates.GreatestWins` | Vision/src/Storage.cpp:213-230 | updates whose counters lie within 2^15 of one another, in any order and with any repetition, leave the entry with the value of the greatest counter and nothing else changed |
| `Updates.OrderIrrelevant` | Vision/src/Storage.cpp:213-230 | two delivery histories of the same set of updates leave the same table |
| `Updates.AcceptedIsAhead` | Vision/src/Storage.cpp:224-230 | an update is taken exactly when its unbounded counter is ahead of the entry's, and then becomes the entry's |
| `Updates.WiderWindowFails` | Vision/src/SequenceNumber.cpp:12-19 | with two counters 2^15 apart the order of arrival decides |
| `Serials.OrderIsDistance` | Vision/src/SequenceNumber.cpp:12-28 | `<` holds exactly when 1 to 2^15 - 1 increments lead from left to right, `>` is its mirror, and exactly the pairs at distance 2^15 are unordered |
| `Serials.WindowOrder` | Vision/src/SequenceNumber.h:45-51 | serials of counters less than 2^15 apart compare as the counters do |
| `Serials.NextIsOneAhead` | Vision/src/SequenceNumber.h:20-24 | incrementing moves a serial one ahead, wrapping past 0xffff |
| `Serials.BehindIsDistance` | Vision/src/SequenceNumber.h:45-47 | the comparison guarding an update refuses exactly distance 0 and distances above 2^15 |
| `TableRuns.StepKeepsLinked` | Vision/src/Storage.cpp:54-329 | every operation keeps index and entries in exact correspondence, while ids stay 16-bit |
| `TableRuns.ServerRun` | Vision/src/Storage.cpp:68-114 | over every server run an id once given to a name leads to that name or to nothing ever after, and an id once freed is never given again |
| `TableRuns.StepDirty` | Vision/src/Storage.cpp:782-808 | with a clear dirty flag, a step sets the flag or leaves the persistent pairs alone if and only if it is not a file load that changes something, an RPC redefinition of a persistent entry, or a client's first sight of a persistent entry |
| `TableRuns.StepDirtyOnly` | Vision/src/Storage.cpp:782-808 | from a clear flag, a step sets it if and only if it changes the persistent pairs and is none of these, or is an accepted update of a persistent entry |
| `TableRuns.DirtyFlagSound` | Vision/src/Storage.cpp:782-808 | over every server run without file loads and RPC creation, a clear flag means that the persistent (name, value) pairs are those of the last snapshot |
| `TableRuns.UnnoticedChanges` | Vision/src/Storage.cpp:1240-1297 | the excepted steps do change the persistent pairs and leave the flag clear |
| `Restart.SavedIsRestored` | Vision/src/Storage.cpp:1031-1297 | for any snapshot, printed in whatever order: an empty server that loads the text holds exactly its pairs if and only if the format holds every one of them; they are then all persistent, with index and entries in agreement |
| `Restart.FromItsOwn` | Vision/src/Storage.cpp:964-1029 | when all names of a snapshot come back, each comes back from its own entry and not from another's |
| `Restart.CleanRestart` | Vision/src/Storage.cpp:782-808 | over every run of local writes, incoming messages and saves, a clear flag means that a server started from the text of the last snapshot has the persistent pairs of this one if and only if the format holds them all |
| `Effects.SetValueEffect` | Vision/include/ntcore_cpp.h:110-118 | a value of another type is refused and nothing happens; any other is what the entry holds afterwards, with its flags, and no other entry changes; the serial moves one ahead exactly for a change that is announced |
| `Effects.SetTwice` | Vision/src/Storage.cpp:521-569 | setting the same value again is silent and changes nothing |
| `Effects.SetTypeValueEffect` | Vision/include/ntcore_cpp.h:120-131 | every value is taken; a change of type is announced as an assignment |
| `Effects.SetDefaultEffect` | Vision/include/ntcore_cpp.h:99-108 | a default is set only where there is nothing, and fails exactly when there is a value of another type |
| `Effects.SetFlagsEffect` | Vision/include/ntcore_cpp.h:133-135 | the flags of the entry and nothing else |
| `Effects.DeleteEffect` | Vision/include/ntcore_cpp.h:141-152 | the entry is gone, its id leads nowhere, all else stays |
| `Effects.DeleteAllEffect` | Vision/include/ntcore_cpp.h:154-163 | exactly the persistent entries stay, with their ids |
| `Effects.SnapshotEffect` | Vision/src/Storage.cpp:782-800 | exactly the persistent values are copied, and a periodic snapshot is skipped exactly when the flag is clear |
| `Effects.CreateRpcEffect` | Vision/src/Storage.cpp:1353-1392 | a server, and only a server, makes the definition the value of the entry, keeps its flags, and announces it as an assignment, or as an update of an earlier definition |
| `Effects.LoadEffect` | Vision/src/Storage.cpp:1244-1288 | a loaded entry holds the loaded value and is persistent, its other flags stay; a changed value and a new persistent flag are announced |
| `Effects.NothingToDo` | Vision/src/Storage.cpp:477-625 | without a name or a value nothing happens, and only a default is refused |
| `Effects.OtherMessages` | Vision/src/Storage.cpp:330-376 | messages that are not about the table change nothing and are not answered |
| `Effects.OldRevision` | Vision/src/Storage.cpp:181-189 | an assignment from a peer of revision 2.0 counts as one with the flags the entry has |
| `Effects.OldBatch` | Vision/src/Storage.cpp:442-446 | and so does one of its first batch |
| `Effects.NobodyListens` | Vision/src/Storage.cpp:521-568 | without a connection every operation does the same to names, values, flags and ids, but sends nothing and moves no serial |
| `Effects.NobodyToRelayTo` | Vision/src/Storage.cpp:204-210 | nor does an incoming message that a server accepts |
| `StorageClass.Storage.SetDefaultEntryValue` | Vision/src/Storage.cpp:477-519 | the entry objects and raw pointers after the call stand for `Tables.SetDefault` of the table before it, with the same messages and result; no pointer dangles |
| `StorageClass.Storage.SetEntryValue` | Vision/src/Storage.cpp:521-569 | the entry objects and raw pointers after the call stand for `Tables.SetValue` of the table before it, with the same messages and result; no pointer dangles |
| `StorageClass.Storage.SetEntryTypeValue` | Vision/src/Storage.cpp:571-618 | the entry objects and raw pointers after the call stand for `Tables.SetTypeValue` of the table before it, with the same messages and result; no pointer dangles |
| `StorageClass.Storage.SetEntryFlags` | Vision/src/Storage.cpp:620-646 | the entry objects and raw pointers after the call stand for `Tables.SetFlags` of the table before it, with the same messages and result; no pointer dangles |
| `StorageClass.Storage.DeleteEntry` | Vision/src/Storage.cpp:654-681 | the entry objects and raw pointers after the call stand for `Tables.Delete` of the table before it, with the same messages and result; no pointer dangles |
| `StorageClass.Storage.DeleteAllEntriesImpl` | Vision/src/Storage.cpp:683-705 | the entry objects and raw pointers after the call stand for `Tables.ClearRows` of the table before it, with the same messages and result; no pointer dangles |
| `StorageClass.Storage.DeleteAllEntries` | Vision/src/Storage.cpp:707-718 | the entry objects and raw pointers after the call stand for `Tables.DeleteAll` of the table before it, with the same messages and result; no pointer dangles |
| `StorageClass.Storage.GetPersistentEntries` | Vision/src/Storage.cpp:782-800 | the entry objects and raw pointers after the call stand for `Tables.TakeSnapshot` of the table before it, with the same messages and result; no pointer dangles |
| `StorageClass.Storage.CreatePolledRpc` | Vision/src/Storage.cpp:1353-1392 | the entry objects and raw pointers after the call stand for `Tables.CreateRpc` of the table before it, with the same messages and result; no pointer dangles |
| `StorageClass.Storage.ProcessIncoming` | Vision/src/Storage.cpp:54-376 | the entry objects and raw pointers after the call stand for `Tables.Receive` of the table before it, with the same messages and result; no pointer dangles |
| `StorageClass.Storage.LoadEntry` | Vision/src/Storage.cpp:1244-1288 | the entry objects and raw pointers after the call stand for `Tables.LoadOne` of the table before it, with the same messages and result; no pointer dangles |
| `StorageClass.Storage.ServerAssign` | Vision/src/Storage.cpp:73-114 | the server half of an incoming assignment is `Tables.ReceiveAssign` |
| `StorageClass.Storage.EnterNew` | Vision/src/Storage.cpp:77-106 | a request for an id enters an absent name under the next id, marks a persistent one dirty, and is told to everyone |
| `StorageClass.Storage.ClientAssign` | Vision/src/Storage.cpp:115-155 | the client half of an incoming assignment is `Tables.ReceiveAssign` |
| `StorageClass.Storage.ClientAssignNew` | Vision/src/Storage.cpp:124-154 | an assignment under an unknown id creates an entry with serial 0, or gives the id to the client's own entry |
| `StorageClass.Storage.Adopt` | Vision/src/Storage.cpp:140-154 | the client's own entry takes its id, and flags and value changed meanwhile are sent again under it |
| `StorageClass.Storage.AssignCommon` | Vision/src/Storage.cpp:157-210 | the common part: a stale serial or another name changes nothing, else value, serial and (3.0, not an answer) flags are taken and relayed |
| `StorageClass.Storage.IncomingUpdate` | Vision/src/Storage.cpp:213-246 | `Tables.ReceiveUpdate` |
| `StorageClass.Storage.IncomingFlags` | Vision/src/Storage.cpp:247-279 | `Tables.ReceiveFlags` |
| `StorageClass.Storage.IncomingDelete` | Vision/src/Storage.cpp:280-316 | `Tables.ReceiveDelete`: the entry leaves the map, its slot is nulled, and no pointer dangles |
| `StorageClass.Storage.SweepTransient` | Vision/src/Storage.cpp:683-705 | in whatever order the map is walked, exactly the persistent entries are kept and exactly the slots of the others nulled |
| `StorageClass.Storage.Removed` | Vision/src/Storage.cpp:289-303 | taking out an entry and nulling the slot of its id leaves no pointer to it |
| `StorageClass.Storage.OneRow` | Vision/src/Storage.cpp:521-569 | writing one entry changes one row of the table and keeps the object graph in shape |
| `StorageClass.Storage.GetInitialAssignments` | Vision/src/Storage.cpp:378-388 | one assignment for every entry, each exactly once |
| `StorageClass.Storage.ApplyInitialAssignments` | Vision/src/Storage.cpp:390-469 | ids forgotten, assignments applied in order, and one request for every entry still without an id, each exactly once; a server does nothing |
| `StorageClass.Storage.ApplyAssignment` | Vision/src/Storage.cpp:408-451 | one assignment of the initial batch |
| `StorageClass.Storage.ForgetAllIds` | Vision/src/Storage.cpp:400-404 | every entry loses its id and the index is empty |
| `StorageClass.Storage.RequestIds` | Vision/src/Storage.cpp:453-461 | one request for each entry without an id |
| `StorageClass.Storage.StoreValue` | Vision/src/Storage.cpp:527-568 | the part of SetEntryValue after the lookup |
| `StorageClass.Storage.StoreTypeValue` | Vision/src/Storage.cpp:577-617 | the part of SetEntryTypeValue and CreatePolledRpc after the lookup |
| `StorageClass.Storage.LoadInto` | Vision/src/Storage.cpp:1247-1287 | the part of LoadPersistent after the lookup |
| `StorageClass.Storage.constructor` | Vision/src/Storage.cpp:24-25 | an empty table |
| `StorageClass.Storage.SetOutgoing` | Vision/src/Storage.cpp:38-42 | role and callback set, table untouched |
| `OutgoingQueue.EnqueueKeepsMarked` | Vision/src/NetworkConnection.cpp:221-313 | whatever is queued, each id but 0xffff has at most one live assignment or update and one live flags update, exactly where the marks point |
| `OutgoingQueue.NetworkConnection.QueueOutgoing` | Vision/src/NetworkConnection.cpp:221-313 | the vectors after the call are `Enqueue` of those before it, and the marks stay exact |
| `OutgoingQueue.NetworkConnection.QueueValue` | Vision/src/NetworkConnection.cpp:226-252 | assignment and update: merged into the waiting one, which keeps its name and flags, or appended |
| `OutgoingQueue.NetworkConnection.QueueDelete` | Vision/src/NetworkConnection.cpp:253-276 | a deletion resets the waiting messages of its id |
| `OutgoingQueue.NetworkConnection.QueueFlags` | Vision/src/NetworkConnection.cpp:277-295 | a flags update replaces the waiting one or is appended |
| `OutgoingQueue.NetworkConnection.QueueClear` | Vision/src/NetworkConnection.cpp:296-309 | a clear resets every waiting message about entries |
| `OutgoingQueue.NetworkConnection.PostOutgoing` | Vision/src/NetworkConnection.cpp:316-330 | a non-empty batch is handed on whole and the queue is idle; an empty one gives at most a keep-alive |
| `OutgoingQueue.NetworkConnection.constructor` | Vision/src/NetworkConnection.cpp:22-38 | an idle queue |
| `Dispatching.QueueOutgoing` | Vision/src/Dispatcher.cpp:282-295 | each synchronized or active connection but the excluded one, or only the one named, has the message queued; every other queue is untouched |
| `Dispatching.Broadcast` | Vision/src/Dispatcher.cpp:282-295 | a list of messages of the storage: each synchronized or active connection has those queued that are addressed to it, in their order, the one whose message caused them only those it is not left out of |
| `Dispatching.ReceiveAssignments` | Vision/src/Dispatcher.cpp:423-449 | the loop succeeds if and only if the closing message comes after nothing but assignments and keep-alives, and then yields those assignments in order |
| `Dispatching.BatchComesThrough` | Vision/src/Dispatcher.cpp:423-449 | a batch with keep-alives anywhere in it comes through whole and in order |
| `Dispatching.ClientHandshake` | Vision/src/Dispatcher.cpp:386-464 | the client succeeds exactly when the server's hello and batch are in order, then has applied the batch and sent its requests; otherwise its table is as it was and only its hello was sent |
| `Dispatching.ServerHandshake` | Vision/src/Dispatcher.cpp:466-551 | the server turns away revisions above 3.0, sends one assignment for every entry between its hello messages, and takes the client's assignments only when the whole batch has come |
| `Dispatching.SendAssignments` | Vision/src/Dispatcher.cpp:494-511 | the batch: a hello in 3.0, one assignment for each entry, the closing message |
| `Dispatching.ReceiveRequests` | Vision/src/Dispatcher.cpp:517-546 | the client's assignments are processed, in order, only when its closing message has come after nothing but assignments and keep-alives |
| `Dispatching.ClientFares3` | Vision/src/Dispatcher.cpp:400-449 | how a client of revision 3.0 ends, by the first message and the rest: turned away, to come back with 2.0 when that is offered; refused without a hello or a closing message; or joined, the lowest bit of the hello telling whether the server knows it |
| `Dispatching.ClientFares2` | Vision/src/Dispatcher.cpp:400-449 | the same in revision 2.0, where there is no hello and every server counts as new |
| `Dispatching.Interrupted` | Vision/src/Dispatcher.cpp:423-449 | any other message ahead of the closing one ends a handshake |
| `Dispatching.OldBatchJoins` | Vision/src/Dispatcher.cpp:494-511 | the batch a server sends in 2.0 joins a client of 2.0 and not one of 3.0 |
| `Dispatching.ProcessAll` | Vision/src/Dispatcher.cpp:544-545 | the collected assignments are processed in order |
| `Probing.TrianglesDiffer` | Vision/src/StringMap.cpp:118-124 | triangular numbers below 2^k are distinct modulo 2^k |
| `Probing.ProbesDiffer` | Vision/src/StringMap.cpp:118-124 | the first n probes of a table of n = 2^k buckets are pairwise different |
| `Probing.ProbesCover` | Vision/src/StringMap.cpp:118-124 | and visit every bucket |
| `Probing.ProbeEnds` | Vision/src/StringMap.cpp:85-124 | a lookup ends: if not all buckets are taken, every hash leads to one that is not |
| `Probing.NextPowerOf2` | Vision/include/llvm/MathExtras.h:480-488 | a power of two above the argument and at most twice it |
| `StringMaps.StringMap.constructor` | Vision/src/StringMap.cpp:32-49 | an empty map with room for the given number of entries |
| `StringMaps.StringMap.Init` | Vision/src/StringMap.cpp:51-65 | sixteen empty buckets |
| `StringMaps.StringMap.FindKey` | Vision/src/StringMap.cpp:131-169 | -1 exactly when the key is absent, else the bucket that holds it; the loop ends |
| `StringMaps.StringMap.Search` | Vision/src/StringMap.cpp:79-125 | the bucket of the key, or one its hash reaches where it can go; the loop ends |
| `StringMaps.StringMap.LookupBucketFor` | Vision/src/StringMap.cpp:73-125 | the same, buckets allocated if there were none and the hash noted beside the bucket; the map is unchanged |
| `StringMaps.StringMap.Place` | Vision/include/llvm/StringMap.h:350-354 | the map gains exactly the entry; counters stay exact |
| `StringMaps.StringMap.FreeBucket` | Vision/src/StringMap.cpp:231-244 | the first free bucket on the way of a hash; the loop ends |
| `StringMaps.StringMap.MoveItem` | Vision/src/StringMap.cpp:228-251 | one item moved: the new table stands for the moved entries and this one |
| `StringMaps.StringMap.MoveItems` | Vision/src/StringMap.cpp:226-252 | all items moved: the new table stands for the same map, nothing lost or doubled, no tombstones |
| `StringMaps.StringMap.Rehash` | Vision/src/StringMap.cpp:215-259 | the same map in a table of the new size; the returned bucket holds the item of the given one |
| `StringMaps.StringMap.RehashTable` | Vision/src/StringMap.cpp:199-260 | the map is unchanged, the size is what the load rule says, some bucket is empty again, and the returned bucket holds the item of the given one |
| `StringMaps.StringMap.EmplaceSecond` | Vision/include/llvm/StringMap.h:343-358 | an absent key is added, a present one keeps its value; the returned bucket holds the key even after a rehash |
| `StringMaps.StringMap.RemoveKey` | Vision/src/StringMap.cpp:182-193 | the map loses exactly the key, and its value is handed back |
| `StringMaps.StringMap.Clear` | Vision/include/llvm/StringMap.h:361-376 | an empty map in the same buckets |
| `StringMaps.StringMap.Copy` | Vision/include/llvm/StringMap.h:223-255 | the same map in fresh buckets, tombstones included |
| `StringMaps.StringMap.FromList` | Vision/include/llvm/StringMap.h:208-213 | of each key the first pair; as many buckets as reserved, so nothing was rehashed |
| `StringMaps.ReservedNeverRehashes` | Vision/src/StringMap.cpp:23-30 | a table sized for n entries meets no rehash condition up to n entries |
| `StringMaps.SixteenBuckets` | Vision/src/StringMap.cpp:203-213 | of sixteen buckets the thirteenth item doubles them, and the table is rehashed where it is once no more than two are empty |
| `StringMaps.ComputeHash` | Vision/src/StringMap.cpp:79-79 | the 32-bit string hash |
| `StringMaps.HashExamples` | Vision/include/llvm/StringExtras.h:128-132 | which is 33 times the hash before a byte plus the byte, in 32 bits, and 108966 for "abc" |
| `Buckets.Lookup` | Vision/include/llvm/DenseMap.h:513-561 | the shared probe loop ends, and finds the bucket of the key or one its hash reaches where it can go, the first tombstone before the empty one |
| `Buckets.PutItem` | Vision/src/StringMap.cpp:88-98 | an item put into a free bucket that its hash reaches makes the table stand for the larger map, all other items still reachable |
| `Buckets.DropItem` | Vision/src/StringMap.cpp:186-189 | a tombstone in the place of an item makes it stand for the smaller map, all other items still reachable |
| `Buckets.NotFound` | Vision/src/StringMap.cpp:141-143 | an empty bucket met before the key means that the key is absent |
| `Buckets.SomeEmpty` | Vision/src/StringMap.cpp:85-98 | a table that is not full has an empty bucket on the way of every hash |
| `Buckets.AllMoved` | Vision/include/llvm/DenseMap.h:321-344 | when every bucket has been moved, exactly the map has been moved |
| `DenseMaps.DenseMap.constructor` | Vision/include/llvm/DenseMap.h:600-600 | an empty map with room for the given number of entries |
| `DenseMaps.DenseMap.LookupBucketFor` | Vision/include/llvm/DenseMap.h:513-561 | whether the key is there, and its bucket or one where it can go; without buckets, neither |
| `DenseMaps.DenseMap.Insert` | Vision/include/llvm/DenseMap.h:171-181 | an absent key is added, a present one keeps its value; the returned bucket holds the key even after the table has grown |
| `DenseMaps.DenseMap.MakeRoom` | Vision/include/llvm/DenseMap.h:470-506 | after it the table has the size its load rule says, the same map, and an empty bucket beyond the one the new entry takes |
| `DenseMaps.DenseMap.Fill` | Vision/include/llvm/DenseMap.h:496-505 | the map gains exactly the entry; both counters stay exact |
| `DenseMaps.DenseMap.Grow` | Vision/include/llvm/DenseMap.h:667-682 | the same map in fresh buckets, no tombstones |
| `DenseMaps.DenseMap.MoveFromOldBuckets` | Vision/include/llvm/DenseMap.h:321-344 | every entry is moved once, none is lost |
| `DenseMaps.DenseMap.Erase` | Vision/include/llvm/DenseMap.h:228-238 | the map loses exactly the key, and a tombstone is counted |
| `DenseMaps.DenseMap.Clear` | Vision/include/llvm/DenseMap.h:93-118 | an empty map without tombstones; large tables with few entries shrink |
| `DenseMaps.DenseMap.ShrinkAndClear` | Vision/include/llvm/DenseMap.h:684-699 | the size it shrinks to |
| `DenseMaps.DenseMap.InitEmpty` | Vision/include/llvm/DenseMap.h:299-308 | every bucket is empty |
| `DenseMaps.DenseMap.Reserve` | Vision/include/llvm/DenseMap.h:86-91 | the same map, with buckets for the number of entries |
| `LoadRules.RoomIsLeft` | Vision/include/llvm/DenseMap.h:483-493 | with one more entry a DenseMap has a power of two of buckets and is less than 3/4 full |
| `LoadRules.ReservedNeverGrows` | Vision/include/llvm/DenseMap.h:312-319 | a DenseMap built for n entries takes them without growing |
| `LoadRules.GrownOk` | Vision/include/llvm/DenseMap.h:667-671 | grow allocates a power of two, at least as much as asked for |
| `LoadRules.SmallSizes` | Vision/include/llvm/DenseMap.h:483-493 | the sizes of small tables: 64 buckets at first, 128 for the 48th entry, and those after a clear |
| `PtrSets.SmallPtrSet.constructor` | Vision/include/llvm/SmallPtrSet.h:74-79 | an empty set in its inline array |
| `PtrSets.SmallPtrSet.Insert` | Vision/include/llvm/SmallPtrSet.h:119-147 | the set gains exactly the pointer; the result says whether it is new and where it is, whether the set stays inline or moves to a hash table |
| `PtrSets.SmallPtrSet.Erase` | Vision/src/SmallPtrSet.cpp:63-86 | the set loses exactly the pointer |
| `PtrSets.SmallPtrSet.Count` | Vision/include/llvm/SmallPtrSet.h:155-167 | whether the pointer is in the set |
| `PtrSets.SmallPtrSet.Size` | Vision/include/llvm/SmallPtrSet.h:88-88 | the number of elements, tombstones not counted |
| `PtrSets.SmallPtrSet.Clear` | Vision/include/llvm/SmallPtrSet.h:90-102 | an empty set; a large table with few elements shrinks, and no set becomes small again |
| `PtrSets.SmallPtrSet.InsertBig` | Vision/src/SmallPtrSet.cpp:39-61 | the same for the hash table, which afterwards still has an empty bucket |
| `PtrSets.SmallPtrSet.Grow` | Vision/src/SmallPtrSet.cpp:117-140 | the same set in a hash table of the new size, no tombstones |
| `PtrSets.SmallPtrSet.ShrinkAndClear` | Vision/src/SmallPtrSet.cpp:23-36 | an empty hash table of the size for the elements there were |
| `PtrSets.SmallPtrSet.Scan` | Vision/include/llvm/SmallPtrSet.h:121-130 | the inline array is searched to its end |
| `PtrSets.SmallPtrSet.Replace` | Vision/include/llvm/SmallPtrSet.h:133-137 | an element takes the place of a tombstone |
| `PtrSets.SmallPtrSet.PushBack` | Vision/include/llvm/SmallPtrSet.h:140-143 | an element joins the end of the inline array |
| `Wire.StreamBack` | Vision/src/Message.cpp:18-150 | decoding the concatenated encodings of any list of sendable messages gives the list as received, to the last byte, in revisions 2.0 and 3.0 |
| `Wire.RefusedIsMisread` | Vision/src/WireEncoder.cpp:39-77 | a raw value or an RPC definition sent in revision 2.0: an update fails at the receiver, an assignment fails or is read as one of the type that the first half of its id names, with bytes taken from the message behind it |
| `Wire.BackUnlessRefused` | Vision/src/WireEncoder.cpp:119-175 | an assignment or update is read back, and what follows it is left, if and only if its revision has a form for the value |
| `Wire.MisreadPasses` | Vision/src/NetworkConnection.cpp:194-205 | it passes unnoticed: a raw value and two keep-alives are read as one boolean under a serial nobody sent |
| `Wire.MessageBack` | Vision/src/Message.cpp:222-299 | one message is read back as received and what follows is left; revision 2.0 writes nothing for the messages it lacks |
| `Wire.SameMessage` | Vision/src/Message.cpp:222-299 | in 3.0 a message that is not a hello is received as sent if and only if its ids and flags fit their widths and its arrays have at most 255 elements |
| `Wire.ValueBack` | Vision/src/WireEncoder.cpp:120-176 | a value is read back, cut to what its revision carries |
| `Wire.StringBack` | Vision/src/WireEncoder.cpp:187-198 | a string is read back; 2.0 cuts it to 65535 bytes |
| `Wire.UlebBack` | Vision/src/leb128.cpp:42-118 | a number below 2^35 survives if and only if it is below 2^31 |
| `Wire.SameValue` | Vision/src/WireEncoder.cpp:120-176 | in 3.0 a value survives if and only if its array has at most 255 elements |
| `Wire.TypeBack` | Vision/src/WireDecoder.cpp:76-111 | a type byte is read back as the type |
| `WireBytes.TypeBytes` | Vision/src/WireEncoder.cpp:38-79 | the type bytes 0x00 to 0x03, 0x10 to 0x12 and 0x20; revision 2.0 writes none for raw and RPC |
| `WireBytes.TypeRead` | Vision/src/WireDecoder.cpp:76-111 | the type of each of these bytes, and an error for every other byte |
| `WireBytes.WordBytes` | Vision/src/WireEncoder.h:60-62 | a 16-bit number is its high byte and its low byte, and is read so |
| `WireBytes.DoubleWordBytes` | Vision/src/WireEncoder.h:65-68 | a 32-bit number likewise |
| `WireBytes.DoubleBytes` | Vision/src/WireEncoder.cpp:25-32 | the eight bytes of a double, sign and exponent first |
| `WireBytes.LengthBytes` | Vision/src/leb128.cpp:42-118 | a length below 2^14 in one or two bytes, low group first, top bit on all but the last |
| `WireBytes.StringBytes` | Vision/src/WireEncoder.cpp:187-198 | what stands before a string: in 3.0 its length as one or two such bytes, in 2.0 two bytes, and only 65535 bytes of a longer one |
| `WireBytes.SimpleValueBytes` | Vision/src/WireEncoder.cpp:120-130 | a boolean is the byte 0x01 or 0x00, a double its eight bytes |
| `WireBytes.TextBytes` | Vision/src/WireEncoder.cpp:130-144 | strings, raw bytes and RPC definitions are alike; 2.0 writes nothing for the last two |
| `WireBytes.ArrayBytes` | Vision/src/WireEncoder.cpp:145-162 | arrays of booleans and doubles behind a count byte |
| `WireBytes.StringArrayBytes` | Vision/src/WireEncoder.cpp:163-171 | an array of strings behind a count byte, in both revisions |
| `WireBytes.PlainMessages` | Vision/src/Message.cpp:222-299 | the bytes of keep-alive, unsupported revision, both closing messages, flags update, deletion and clear with its four magic bytes D0 6C B2 7A; and which of them 2.0 lacks |
| `WireBytes.HelloMessages` | Vision/src/Message.cpp:227-245 | the bytes of the two hellos in both revisions |
| `WireBytes.AssignMessage` | Vision/src/Message.cpp:250-258 | the bytes of an assignment in both revisions, for any value |
| `WireBytes.RequestMessage` | Vision/src/Message.cpp:250-258 | a request for an id has ff ff where the id stands |
| `WireBytes.UpdateMessage` | Vision/src/Message.cpp:259-265 | the bytes of an update: with the type in 3.0, without it in 2.0 |
| `WireBytes.RpcMessages` | Vision/src/Message.cpp:282-295 | the bytes of calls and responses |
| `WireBytes.MessageRead` | Vision/src/Message.cpp:18-150 | the first byte decides: thirteen are known, six of them in 2.0, every other fails |
| `WireBytes.NumbersRead` | Vision/src/Message.cpp:38-101 | unsupported revision, flags update and deletion as read from their bytes |
| `WireBytes.ClearRead` | Vision/src/Message.cpp:102-115 | a clear is read if and only if its four bytes are the magic ones |
| `WireBytes.ClientHelloRead` | Vision/src/Message.cpp:27-37 | a hello says its revision, and from 3.0 on a name follows |
| `WireBytes.ServerHelloRead` | Vision/src/Message.cpp:44-51 | flags and name |
| `WireBytes.AssignRead` | Vision/src/Message.cpp:58-70 | every assignment of 3.0 as read from its bytes |
| `WireBytes.AssignRead2` | Vision/src/Message.cpp:58-70 | every assignment of 2.0, which has no flags |
| `WireBytes.UpdateRead` | Vision/src/Message.cpp:71-84 | every update: its type is on the wire in 3.0, and in 2.0 the entry's, where an update of an unknown entry fails |
| `WireBytes.RpcRead` | Vision/src/Message.cpp:116-143 | calls and responses |
| `WireBytes.ValueRead` | Vision/src/WireDecoder.cpp:113-147 | single values of either revision; every nonzero byte is true |
| `WireBytes.ArrayRead` | Vision/src/WireDecoder.cpp:148-171 | arrays of booleans and doubles |
| `WireBytes.UnknownType` | Vision/src/WireDecoder.cpp:105-108 | an assignment or update whose type byte is unknown fails |
| `Framing.MessageContinues` | Vision/src/Message.cpp:18-150 | of any bytes, not only written ones: what has been read as a message is read so whatever follows, and all that follows is left |
| `Framing.CutShort` | Vision/src/Message.cpp:18-150 | no part of a written message short of the whole is read as a message |
| `Encoding.SizeUleb128` | Vision/src/leb128.cpp:23-31 | the number of bytes WriteUleb128 appends |
| `Encoding.WireEncoder.constructor` | Vision/src/WireEncoder.cpp:20-23 | no bytes, no error |
| `Encoding.WireEncoder.Write8` | Vision/src/WireEncoder.h:57-57 | the low byte is appended |
| `Encoding.WireEncoder.Write16` | Vision/src/WireEncoder.h:60-62 | two bytes, high byte first, are appended |
| `Encoding.WireEncoder.Write32` | Vision/src/WireEncoder.h:65-68 | four bytes, high byte first, are appended |
| `Encoding.WireEncoder.WriteDouble` | Vision/src/WireEncoder.cpp:25-32 | the eight bytes of the pattern are appended |
| `Encoding.WireEncoder.WriteUleb128` | Vision/src/leb128.cpp:42-57 | the groups of seven bits are appended and counted |
| `Encoding.WireEncoder.WriteType` | Vision/src/WireEncoder.cpp:38-79 | the type byte is appended, or an error set for raw and RPC in 2.0 |
| `Encoding.WireEncoder.GetStringSize` | Vision/src/WireEncoder.cpp:178-185 | the number of bytes WriteString appends |
| `Encoding.WireEncoder.WriteString` | Vision/src/WireEncoder.cpp:187-198 | length and bytes, cut in 2.0 |
| `Encoding.WireEncoder.GetValueSize` | Vision/src/WireEncoder.cpp:81-118 | the number of bytes WriteValue appends |
| `Encoding.WireEncoder.WriteValue` | Vision/src/WireEncoder.cpp:120-176 | the encoding of the value; an error for raw and RPC in 2.0 |
| `Encoding.WireEncoder.WriteBools` | Vision/src/WireEncoder.cpp:145-153 | at most 255 booleans behind their count |
| `Encoding.WireEncoder.WriteDoubles` | Vision/src/WireEncoder.cpp:154-162 | at most 255 doubles behind their count |
| `Encoding.WireEncoder.WriteStrings` | Vision/src/WireEncoder.cpp:163-171 | at most 255 strings behind their count |
| `Encoding.WireEncoder.WriteMessage` | Vision/src/Message.cpp:222-299 | the encoding of the message, for each type and revision |
| `Decoding.WireDecoder.constructor` | Vision/src/WireDecoder.cpp:48-56 | the whole stream ahead, no error |
| `Decoding.WireDecoder.Read` | Vision/src/WireDecoder.h:52-71 | the next bytes, or a stream error when there are too few |
| `Decoding.WireDecoder.Read8` | Vision/src/WireDecoder.h:74-79 | the next byte |
| `Decoding.WireDecoder.Read16` | Vision/src/WireDecoder.h:82-91 | the next two bytes, high byte first |
| `Decoding.WireDecoder.Read32` | Vision/src/WireDecoder.h:94-109 | the next four bytes, high byte first |
| `Decoding.WireDecoder.ReadDouble` | Vision/src/WireDecoder.cpp:60-65 | the next eight bytes as a pattern |
| `Decoding.WireDecoder.BytesToDouble` | Vision/src/WireDecoder.cpp:20-46 | the pattern of eight bytes of a buffer |
| `Decoding.WireDecoder.ReadUleb128` | Vision/src/leb128.cpp:100-118 | groups added up until one has its top bit clear |
| `Decoding.WireDecoder.ReadType` | Vision/src/WireDecoder.cpp:76-111 | the type of a type byte; an unknown one sets the error indicator |
| `Decoding.WireDecoder.ReadString` | Vision/src/WireDecoder.cpp:190-205 | length and bytes |
| `Decoding.WireDecoder.ReadValue` | Vision/src/WireDecoder.cpp:113-188 | the value of the given type, or failure |
| `Decoding.WireDecoder.ReadBools` | Vision/src/WireDecoder.cpp:148-159 | a boolean array |
| `Decoding.WireDecoder.ReadDoubles` | Vision/src/WireDecoder.cpp:160-171 | a double array |
| `Decoding.WireDecoder.ReadStrings` | Vision/src/WireDecoder.cpp:172-184 | a string array |
| `Decoding.WireDecoder.ReadMessage` | Vision/src/Message.cpp:18-150 | exactly the parse of one message from the front of the stream, failures included; a failed read sets the error indicator exactly when it is not the stream that ran out |
| `RpcCodec.DefinitionBack` | Vision/src/ntcore_cpp.cpp:153-214 | a packed RPC definition is unpacked as it was, its lists and arrays cut to 255 elements and its version to a byte, whatever bytes follow |
| `RpcCodec.SameDefinition` | Vision/src/ntcore_cpp.cpp:153-178 | it comes out as it went in if and only if nothing had to be cut |
| `RpcCodec.ValuesBack` | Vision/src/ntcore_cpp.cpp:216-233 | packed values are unpacked with their types as they were, arrays cut to 255 elements |
| `RpcCodec.EachBack` | Vision/src/ntcore_cpp.cpp:189-198 | elements that are read back one by one are read back in a row |
| `RpcCodec.DefinitionBytes` | Vision/src/ntcore_cpp.cpp:153-178 | the bytes of a definition: version, name, counted parameters by type, name and default, counted results by type and name |
| `RpcCodec.ValuesBytes` | Vision/src/ntcore_cpp.cpp:216-233 | values stand one after the other without types; when one is missing none is read |
| `RpcCodec.PackRpcDefinition` | Vision/src/ntcore_cpp.cpp:153-178 | the bytes of the definition |
| `RpcCodec.UnpackRpcDefinition` | Vision/src/ntcore_cpp.cpp:180-214 | the parse of the bytes, failures included |
| `RpcCodec.PackRpcValues` | Vision/src/ntcore_cpp.cpp:216-220 | the values one after another |
| `RpcCodec.UnpackRpcValues` | Vision/src/ntcore_cpp.cpp:222-233 | the values of the given types, or none when one cannot be read |
| `PersistentFile.SaveLoad` | Vision/src/Storage.cpp:810-1238 | loading the text saved for any list of entries gives the list back if and only if no entry is an RPC, the library reads every double back from what it prints of it, names are non-empty, names and strings hold no double quote, and no name and no array element but the last ends in a backslash |
| `PersistentFile.LineBack` | Vision/src/Storage.cpp:818-902 | a saved line is read back as its entry if and only if the format holds the entry |
| `PersistentFile.ValueBack` | Vision/src/Storage.cpp:854-898 | a value is read back if and only if the format holds it: a double must be one the library reads back |
| `PersistentFile.DoublesBack` | Vision/src/Storage.cpp:1181-1201 | an array of doubles is read back if and only if the library reads back each of them |
| `PersistentFile.DoubleLine` | Vision/src/Storage.cpp:1128-1140 | whatever stands behind the equals sign of a `double` line, its entry is what the library reads in the trimmed text, and it has none if the library reads nothing |
| `PersistentFile.StringsBack` | Vision/src/Storage.cpp:1202-1230 | a string array is read back if and only if no element holds a quote and only the last may end in a backslash |
| `PersistentFile.QuotedBack` | Vision/src/Storage.cpp:964-1029 | a written string comes back with its quotes turned into backslashes; one that ends in a backslash and has something behind it comes back longer or not at all |
| `FileText.EmptyFile` | Vision/src/Storage.cpp:815-816 | the text of no entries is the header line |
| `FileText.OneEntryFile` | Vision/src/Storage.cpp:815-902 | the text of one entry, from header to newline |
| `FileText.TypeWords` | Vision/src/Storage.cpp:818-846 | the words before the name for each type; an RPC definition is not printed |
| `FileText.ValueTexts` | Vision/src/Storage.cpp:854-886 | the texts of booleans, doubles and their arrays |
| `FileText.StringTexts` | Vision/src/Storage.cpp:862-895 | the texts of raw bytes, strings and their arrays |
| `FileText.EscapeTable` | Vision/src/Storage.cpp:753-778 | how each of the 256 bytes stands in a quoted string |
| `FileText.EscapesRead` | Vision/src/Storage.cpp:995-1027 | what each escape is read as: a quote as a backslash, an unknown one as a backslash without the character |
| `FileText.HexRead` | Vision/src/Storage.cpp:1012-1022 | hexadecimal escapes: either case, one digit or two, and `x` without any |
| `FileText.NothingInLine` | Vision/src/Storage.cpp:1059-1064 | white space and comments after `;` or `#` yield nothing |
| `FileText.SpaceAroundLine` | Vision/src/Storage.cpp:1059-1060 | white space around a line changes nothing |
| `FileText.WordsRead` | Vision/src/Storage.cpp:1066-1090 | exactly these words name a type, and exactly two are booleans |
| `FileText.BlanksAroundEquals` | Vision/src/Storage.cpp:1105-1111 | blanks around the equals sign change nothing; without the sign, the quote or a name the line yields nothing |
| `FileText.BoolsRead` | Vision/src/Storage.cpp:1160-1180 | an array of booleans element by element, blanks around each |
| `FileText.DoublesRead` | Vision/src/Storage.cpp:1181-1201 | an array of doubles likewise, as the library reads them |
| `FileText.StringsRead` | Vision/src/Storage.cpp:1202-1230 | an array of strings likewise; a missing comma or quote spoils it |
| `FileText.LineByLine` | Vision/src/Storage.cpp:1058-1238 | lines are read one by one, and a bad one takes nothing with it |
| `FileText.HeaderFirst` | Vision/src/Storage.cpp:1046-1056 | blank lines and comments may stand above the header; any other first line makes the reader refuse the file |
| `StringTokens.TokenBack` | Vision/src/Storage.cpp:964-980 | the token of a written string is that string, unless it ends in a backslash and something follows |
| `StringTokens.UnescapeBack` | Vision/src/Storage.cpp:991-1029 | unescaping a written string, whatever follows, gives it with quotes turned into backslashes |
| `StringTokens.MangledSame` | Vision/src/Storage.cpp:1001-1004 | which is the string itself if and only if it holds no quote |
| `StringTokens.WriteString` | Vision/src/Storage.cpp:751-780 | appends the escaped string in quotes |
| `StringTokens.EscapedPlain` | Vision/src/Storage.cpp:753-778 | a written string holds only printable characters and no equals sign |
| `StringTokens.ReadStringToken` | Vision/src/Storage.cpp:964-980 | the text up to the first quote without a backslash before it, and the rest |
| `StringTokens.UnescapeString` | Vision/src/Storage.cpp:991-1029 | the unescaped inside of a token |
| `StringTokens.NextByte` | Vision/src/Storage.cpp:995-1027 | one round of the unescaping loop |
| `PersistentStream.SavePersistentImpl` | Vision/src/Storage.cpp:810-903 | writes the header and one line for each entry that has a file form |
| `PersistentStream.WriteValueText` | Vision/src/Storage.cpp:855-898 | the text of a value |
| `PersistentStream.WriteList` | Vision/src/Storage.cpp:869-886 | elements with a comma between any two |
| `PersistentStream.LoadPersistent` | Vision/src/Storage.cpp:1031-1238 | the entries of the text, or nothing unless the first line that counts is the header as it stands |
| `PersistentStream.FindHeader` | Vision/src/Storage.cpp:1046-1050 | the first line that is neither blank nor a comment |
| `PersistentStream.ParseLines` | Vision/src/Storage.cpp:1058-1238 | the entries of all lines, bad lines skipped |
| `PersistentStream.ParseLine` | Vision/src/Storage.cpp:1059-1090 | the entry of one line, if it has one |
| `PersistentStream.ParseNamed` | Vision/src/Storage.cpp:1092-1236 | name and value of a line |
| `PersistentStream.ParseValue` | Vision/src/Storage.cpp:1113-1233 | the value of the given type |
| `PersistentStream.ParseBools` | Vision/src/Storage.cpp:1160-1180 | a boolean array |
| `PersistentStream.ParseDoubles` | Vision/src/Storage.cpp:1181-1201 | a double array |
| `PersistentStream.ParseStrings` | Vision/src/Storage.cpp:1202-1230 | a string array |
| `PersistentStream.TakeQuoted` | Vision/src/Storage.cpp:1094-1103 | a quoted string and the rest of the line |
| `Base64.RoundTrip` | Vision/src/Base64.cpp:91-150 | decoding inverts encoding for every byte string (section 4 of RFC 4648) |
| `Base64.Encode` | Vision/src/Base64.cpp:122-150 | the loop writes the encoding |
| `Base64.Decode` | Vision/src/Base64.cpp:91-117 | the loops write the bytes of the leading digits |
| `Base64.EncodedAlphabet` | Vision/src/Base64.cpp:119-120 | an encoding holds only digits and padding |
| `Base64.Alphabet` | Vision/src/Base64.cpp:70-120 | the 64 digits of RFC 4648 in their order, and no other character is one |
| `Base64.Examples` | Vision/src/Base64.cpp:122-150 | the examples of section 10 of RFC 4648 |
| `Base64.Leftovers` | Vision/src/Base64.cpp:91-117 | foreign text is read up to the first character that is no digit; two digits left make one byte, three make two, one none |
| `Utf.EncodeDecode` | Vision/src/ConvertUTF.cpp:261-279 | the bytes written for a scalar value are one legal sequence that decodes to it |
| `Utf.DecodeEncode` | Vision/src/ConvertUTF.cpp:353-376 | every legal sequence is the encoding of a scalar value (section 4 of RFC 3629) |
| `Utf.Utf8Table` | Vision/src/ConvertUTF.cpp:261-279 | the bytes of a code point by its bits (section 3 of RFC 3629) |
| `Utf.Utf16Table` | Vision/src/ConvertUTF.cpp:547-577 | the units of a code point by its bits (section 2.1 of RFC 2781) |
| `Utf.Utf8Examples` | Vision/src/ConvertUTF.cpp:261-279 | four characters written out |
| `Utf.WellFormed8` | Vision/src/ConvertUTF.cpp:501-509 | the walk over a byte string yields a list of scalar values if and only if their encodings concatenate to the string, so the decomposition is unique |
| `Utf.WellFormed16` | Vision/src/ConvertUTF.cpp:233-259 | the same for UTF-16 and surrogate pairs |
| `Utf.IsLegalUtf8String` | Vision/src/ConvertUTF.cpp:501-509 | accepts exactly the concatenations of encodings of scalar values; otherwise it stops behind such a concatenation, where no legal sequence begins |
| `UtfConvert.RoundTrip16` | Vision/src/ConvertUTF.cpp:219-285 | strict UTF-16 to UTF-8 and back is the identity on every well-formed input, using all of it |
| `UtfConvert.RoundTrip32` | Vision/src/ConvertUTF.cpp:289-338 | strict UTF-32 to UTF-8 and back is the identity on every list of scalar values |
| `UtfConvert.Strict8` | Vision/src/ConvertUTF.cpp:513-582 | the readers of UTF-8 succeed if and only if the input is UTF-8 and its code points fit the target, and then yield exactly them |
| `UtfConvert.Strict16` | Vision/src/ConvertUTF.cpp:219-285 | the same for strict UTF-16 to UTF-8 |
| `UtfConvert.Strict32` | Vision/src/ConvertUTF.cpp:289-338 | the same for strict UTF-32 to UTF-8 |
| `UtfConvert.UsedUnits16` | Vision/src/ConvertUTF.cpp:219-285 | strict or lenient, however it ends: the code points read from UTF-16 encode to exactly the units used |
| `UtfConvert.UsedBytes8` | Vision/src/ConvertUTF.cpp:513-582 | the same of UTF-8, from which only scalar values are read |
| `UtfConvert.Lenient16` | Vision/src/ConvertUTF.cpp:231-259 | leniently all units are converted, lone surrogates as they are, unless the last is the first half of a pair, and then all but that |
| `UtfConvert.Lenient32` | Vision/src/ConvertUTF.cpp:300-320 | leniently every value beyond 0x10FFFF is replaced by 0xFFFD, to the end, and the outcome says whether any was |
| `UtfConvert.Stops8` | Vision/src/ConvertUTF.cpp:513-582 | why a conversion of UTF-8 stops, exactly: cut off, illegal or no room |
| `UtfConvert.Stops16` | Vision/src/ConvertUTF.cpp:219-285 | the same of UTF-16 |
| `UtfConvert.Stops32` | Vision/src/ConvertUTF.cpp:289-338 | the same of code points in UTF-32 |
| `Converters.Enough16` | Vision/src/ConvertUTFWrapper.cpp:64-70 | four bytes a unit never run out |
| `Converters.Enough8` | Vision/src/ConvertUTFWrapper.cpp:102-108 | one unit a byte never runs out |
| `Converters.Marks` | Vision/src/ConvertUTFWrapper.cpp:48-60 | a byte order mark is dropped, and a swapped one has the bytes of all units swapped |
| `Converters.ConvertUtf16ToUtf8String` | Vision/src/ConvertUTFWrapper.cpp:37-81 | succeeds exactly on UTF-16 (byte order mark taken off, bytes swapped if it says so), and then gives its UTF-8; the target never runs out |
| `Converters.ConvertUtf8ToUtf16String` | Vision/src/ConvertUTFWrapper.cpp:83-120 | succeeds exactly on UTF-8, and then gives its UTF-16; the target never runs out |
| `Converters.ConvertUtf32ToUtf8` | Vision/src/ConvertUTF.cpp:289-338 | the loop over a target of any size: outcome, units used and bytes written, strict and lenient |
| `Converters.ConvertUtf16ToUtf8` | Vision/src/ConvertUTF.cpp:219-285 | the same |
| `Converters.ConvertUtf8ToUtf16` | Vision/src/ConvertUTF.cpp:513-582 | the same, for the strict conversion and for the lenient one |
| `Converters.ConvertUtf8ToUtf32` | Vision/src/ConvertUTF.cpp:586-671 | the same, for the strict conversion |
| `Converters.Gather` | Vision/src/ConvertUTF.cpp:530-541 | shifting, adding and subtracting the offset gives the code point of a legal sequence |
| `Converters.Put8` | Vision/src/ConvertUTF.cpp:274-279 | the fall-through writes put down the encoding |
| `Converters.Put16` | Vision/src/ConvertUTF.cpp:547-577 | one unit or a surrogate pair |
| `Converters.Read32` | Vision/src/ConvertUTF.cpp:300-320 | one step of reading UTF-32 |
| `Converters.Read16` | Vision/src/ConvertUTF.cpp:231-259 | one step of reading UTF-16 |
| `Converters.Read8` | Vision/src/ConvertUTF.cpp:519-541 | one step of reading UTF-8 |
| `StringSearch.Find` | Vision/src/StringRef.cpp:146-187 | the least index at or after `From` where the needle occurs, or npos when there is none, for all haystacks and needles |
| `StringSearch.FindSkipping` | Vision/src/StringRef.cpp:172-187 | the skip-table loop finds the least index |
| `StringSearch.FindNaive` | Vision/src/StringRef.cpp:163-170 | the plain loop finds the least index |
| `StringSearch.BuildSkips` | Vision/src/StringRef.cpp:172-176 | the table, one byte an entry, holds the skip of every byte value |
| `StringSearch.SkipIsSafe` | Vision/src/StringRef.cpp:178-184 | a skip is positive and passes over no occurrence |
| `Hashing.HashContiguous` | Vision/include/llvm/Hashing.h:444-465 | the contiguous form computes the hash of the bytes |
| `Hashing.HashIterated` | Vision/include/llvm/Hashing.h:401-434 | for items of any size: the buffered iterator form computes the hash of the concatenated items, or its assertion fails, exactly when the items do not all fit the buffer and their size does not divide it |
| `Hashing.HashCombine` | Vision/include/llvm/Hashing.h:600-605 | the recursive form computes the hash of the concatenated arguments |
| `Hashing.HashCombineHelper.Combine` | Vision/include/llvm/Hashing.h:551-583 | argument after argument, then the rest of the buffer |
| `Hashing.HashCombineHelper.CombineData` | Vision/include/llvm/Hashing.h:513-546 | one more piece is fed, whatever part of it fits the buffer |
| `Hashing.RotatedIsLast` | Vision/include/llvm/Hashing.h:423-427 | a partly refilled buffer, rotated, holds the last 64 bytes |
| `Hashing.HashShapes` | Vision/include/llvm/Hashing.h:444-465 | which bytes are mixed for lengths up to 191 |
| `Hashing.StoreAndAdvance` | Vision/include/llvm/Hashing.h:384-394 | all of the data goes into the buffer, or nothing does |
| `Hashing.Fill` | Vision/include/llvm/Hashing.h:416-421 | items are stored until none is left or the next does not fit |
| `Saturating.SaturatingMultiply` | Vision/include/llvm/MathExtras.h:592-630 | the minimum of the exact product and the maximum of the width, with the flag set exactly on overflow, for widths up to 64 bits |
| `Saturating.SaturatingMultiplyAdd` | Vision/include/llvm/MathExtras.h:640-649 | the same for product and sum |
| `Saturating.SaturatingAdd` | Vision/include/llvm/MathExtras.h:574-584 | the same for a sum |
| `Saturating.MultiplyAtTop` | Vision/include/llvm/MathExtras.h:617-629 | the case decided by `(X >> 1) * Y` |
| `Saturating.Magnitude` | Vision/include/llvm/MathExtras.h:603-615 | what the sum of the logarithms says of the product |
| `Saturating.Log2` | Vision/include/llvm/MathExtras.h:372-374 | -1 for zero, else the position of the highest one bit |
| `Saturating.Widths` | Vision/include/llvm/MathExtras.h:574-584 | the maxima of 8, 16, 32 and 64 bits |
| `OutStream.RawOstream.Write` | Vision/src/raw_ostream.cpp:339-380 | bytes handed to the sink followed by the buffer are everything written before and these bytes; the recursion ends |
| `OutStream.RawOstream.WriteChar` | Vision/src/raw_ostream.cpp:319-337 | the same for one byte |
| `OutStream.RawOstream.Indent` | Vision/src/raw_ostream.cpp:501-517 | the same for a run of spaces |
| `OutStream.RawOstream.CopyToBuffer` | Vision/src/raw_ostream.cpp:382-399 | the bytes are behind those buffered |
| `OutStream.RawOstream.FlushNonempty` | Vision/src/raw_ostream.cpp:312-317 | everything written is in the sink and the buffer is empty |
| `OutStream.RawOstream.Flush` | Vision/include/llvm/raw_ostream.h:161-164 | the same, also for an empty buffer |
| `OutStream.RawOstream.SetBuffered` | Vision/src/raw_ostream.cpp:125-132 | nothing written is lost; a buffer of the preferred size, or none if that is zero |
| `OutStream.RawOstream.SetBufferAndMode` | Vision/src/raw_ostream.cpp:134-151 | a drained buffer is replaced |
| `OutStream.RawOstream.Tell` | Vision/include/llvm/raw_ostream.h:119-119 | the number of bytes written, buffered ones included |

## Left out

- Threads, sockets, timeouts, logging, notifier callbacks, `ntcore_c.cpp`, `DsClient` and the `NetworkTable` facade are not modelled; each section under a mutex is one atomic step. On a client that receives the answer to its own request the lock is released while a flags update is queued (`Vision/src/Storage.cpp:147-153`); the model takes the section as atomic.
- RPC calls and their results (`ExecuteRpc`, `RpcResponse`) pass through the codec but do nothing to the table; `CreateRpc` is modelled without its callback.
- Floating point: doubles are 64-bit patterns, so two values compare equal when their patterns do; how the C++ library prints and reads a double in the file is a parameter of which nothing is assumed.
- Replica.ReplicaRun: for a client that only listens; a merge that drops flags, serials or spared news ends the claim, also where it asks for nothing new or a later message would make up for it.
- Sender.MergingRun: for runs without file loads and with fewer than 0xffff ids; at every merge the waiting value must be within reach, so a run in which a value out of reach is merged and replaced by one within reach before the post is not covered.
- Sender.PacedRun: the count is sufficient and not necessary; the exact condition is that of Sender.SenderKnows.
- PersistentFile.SaveLoad: asks that the library prints a double as a word, with no comma or newline in it and no white space around it. Which doubles it reads back as they were is its own affair: the six digits that `operator<<` prints by default do not tell all of them apart.
- Coalescing.CoalescingKeepsMeaning: serials are compared as the receiver compares them; the receiver's own serials afterwards are not, since an entry created by a merged assignment starts at 0 where the unmerged update would have raised it.
- TableRuns.ServerRun: for runs in which fewer than 0xffff ids are given out; beyond that ids do not fit their 16 bits.
- Handshake.HandshakeEnds: for nobody else writing meanwhile, and fewer than 0xffff ids; the client serials are unrestricted.
- Handshake.HandshakeConverges: for servers all of whose entries have ids; a storage that was a client before may have entries without one, and Handshake.HandshakeEnds says what becomes of them.
- Dispatching.ServerHandshake: asks that the ids of all announced entries fit 16 bits; the connection state and the identity strings stored on the connection are not modelled.
- Integer widths: sizes and counts of the hash tables are unbounded, so the wrap-around of bucket counts near 2^32 is not modelled; serials, string hashes, wire fields, ULEB128 groups and the saturating operations are.
- Probing.NextPowerOf2: modelled by value, not by its shifts; likewise Saturating.Log2 for `countLeadingZeros`.
- Decoding.WireDecoder.ReadUleb128: from the sixth group on the source shifts by more than the width of its operand, which C++ leaves undefined; the model adds nothing there.
- StringTokens.UnescapeString: when an escape runs past the closing quote the source reads on behind the token; the model skips the line instead.
- PersistentStream.TakeQuoted: a token that is a lone quote passes the source's test for a closing quote and fails the assertion at the head of its unescaping (`Vision/src/Storage.cpp:992`), or runs past the token where assertions are off; the model skips the line instead.
- Wire.UlebBack: for numbers below 2^35, which take five groups at most; the reader's shift of a sixth group is undefined in C++.
- Base64.Decode: the count of characters consumed, which no caller uses, is not returned; input holds no terminating zero byte of its own.
- PersistentStream.LoadPersistent: warnings and line numbers are not modelled; opening, renaming and backing up files are not either.
- StorageClass.Storage.GetPersistentEntries: the copied pairs are a map, so sorting them by name is not part of it; the printed order is the order of the list given to the printer.
- Converters.ConvertUtf8ToUtf32: only the strict conversion; the lenient one, which writes a replacement character without looking at the room left, and the search for the maximal subpart of an ill-formed sequence are left out. UTF-16 and UTF-32 into one another are left out too.
- UtfConvert.Strict8: the readers' checks for surrogates and too large values are absent, because no legal sequence decodes to such a value (Utf.DecodeEncode).
- Hashing: the mixing functions `create`, `mix`, `finalize` and `hash_short` are parameters; the platform's hash width plays no part.
- OutStream.RawOstream.Write: for sinks that take all bytes and leave the buffer alone; an external buffer's owner is not modelled, nor is number formatting.
- Buckets.Lookup: the loops of `DenseMap::LookupBucketFor` and `SmallPtrSet::FindBucketFor` are one method, since they differ only in the order of tests that exclude each other. Iterators, epochs, copying and swapping of `DenseMap` and `SmallPtrSet` are left out, and so is `SmallDenseMap`.
- `SmallVector`, `Optional`, `ArrayRef`, `UidVector`, the rest of `StringRef` and `MathExtras.h`, and everything around OpenCV, configuration and JNI would add only easy members.
