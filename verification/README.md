# The chatd chat engine, verified

This project models the `chatd` engine of the chat library: the client side of a message-log
replication protocol, and the data structures that it keeps in step. It proves what every
operation, and every run of operations, keeps.

## The parts

- **Protocol** (`Protocol`, `ProtocolInvariant`, `ProtocolRuns`, `ProtocolClaims`, `ProtocolTheorems`,
  `ProtocolLimits`). One client, two FIFO channels, and a server that keeps a log under the contract
  documented with the opcodes in `src/chatdMsg.h`. Disconnects drop what is in flight, except that the
  server may still receive what a dead socket had accepted; logins replay what was missed before the queue
  is sent again. Exactly-once delivery, the history as a slice of the log, fetch routing and the all-history
  flag are theorems about every run from a fresh installation. `ProtocolClaims` keeps track of what the
  client may claim wrongly, and `ProtocolLimits` gives a run in which it does.
- **History** (`HistorySpec`, `Pipeline`, `PipelineRuns`, `Contents`, `Paging`, `Updates`, `Retention`,
  `Unread`, `ReadMarks`, `Lifecycle`, `HistoryLimits`). The window of messages in RAM, the `history` table,
  and the two points at which decryption is halted, as one value, with the invariant `HistorySpec.Inv`: the
  window and the table are intervals, the table ends at the newest decrypted message and begins at the
  oldest decrypted one once nothing is left to load, both agree on what is decrypted, ids are unique. Each
  operation is a function on this value; `Lifecycle` shows exactly when each of them keeps the invariant,
  and that every run of harmless ones, restarts included, does. `Contents` says what is written.
  `HistoryLimits` reaches an input on which each condition fails.
- **The engine's objects** (`HistoryBuffers`, `HistoryTables`, `Chats`). The two-ended buffer with its id
  map, the table with its statements, and the `Chat` that drives both, as classes whose methods follow the
  original's branches and loops. Each method is proved against the functions above, so what is proved of
  those functions holds of the objects.
- **Send queue** (`SendQueue`, `SendQueueRuns`, `SendEffects`, `SendSessions`, `SendAnswers`, `SendChats`,
  `SendLimits`, `SendingQueues`). The list of unsent messages and edits and the `sending` table that
  persists it: as a value with its runs and the effect of each operation, with the flushes that encrypt it,
  with the answers of the server, among several chats, and as a class.
- **Back-references** (`BackRefs`). Which earlier messages a new message names, and the check of the names
  that a received message carries.
- **Codecs** (`Base64Url`, `Alphabet`, `Wire`, `Commands`, `Layouts`). base64url (section 5 of RFC 4648)
  with its alphabet, the layouts of all received opcodes with the loop that takes a frame apart, and the
  message and key commands.
- **Reactions** (`Reactions`). The reactions to a message, in RAM and in the `chat_reactions` table.

`ChatTypes` holds the types that several parts share.

## How to read the statements

- An index is an `int`; `IDX_INVALID` is the value 0x7fffffff that the code uses for "unset", and it takes
  part in comparisons as it does there.
- A table is a map from index, or from rowid, to row. A statement of the original is a method that scans the
  rows it selects.
- Decryption is a function from message to result at one moment (`HistorySpec.Crypto`): a plain message, or
  nothing while keys are missing. A delayed decryption ends with any message that carries the same id.
- Time, random ids, random draws and key material are parameters.
- Statements that hold only under a condition are given with "if and only if". The condition can be checked
  before the call.

## Where the code differs from its own comments or asserts

- A truncate for a message that is not loaded changes nothing: its edit delta is zero, and the branch for
  such messages asks for a greater delta than the stored one (`src/chatd.cpp:4831-4839`). The comment in
  `handleTruncate` speaks of more history in the table. `Updates.StoredUpdateTwice`.
- Back-reference offset 0 is the message itself, not the one before it as the comment says
  (`src/chatd.cpp:3595-3613`). `BackRefs.TargetAt`.
- `onLastSeen` adds one to an unset pointer, which overflows (`src/chatd.cpp:4085`). It is read here as the
  smallest index, which the next line raises to `lownum()`.
- A RECEIVED for a message older than the pointer is ignored for the index, but its id is persisted
  (`src/chatd.cpp:3938-3955`), and so is the id of an unknown message, in a SEEN too, over that of a valid
  pointer (`src/chatd.cpp:4068-4077`). A restart then finds another pointer, or none.
  `ReadMarks.ReceivedSurvivesRestartIff`, `ReadMarks.SeenSurvivesRestartIff`;
  `HistoryLimits.ReceivedMovesBack`, `HistoryLimits.ReceivedIsForgotten`, `HistoryLimits.SeenIsForgotten`.
- The retention limit is passed to the table as an unsigned 32-bit number (`src/chatd.cpp:5008`).
  `Retention.KeepsLiveSuffixIff`, `HistoryLimits.NegativeLimitDeletesAll`.
- `mHasMoreHistoryInDb` is not recomputed after retention. `Retention.HasMoreStaysExactIff`,
  `HistoryLimits.HasMoreGoesStale`.
- At login that flag is wrong while an old message waits for its keys, and a confirmation or an import
  breaks the order of the table while a new one does. `PipelineRuns.LoginKnowsItsTableIff`,
  `PipelineRuns.ConfirmInOrderIff`, `PipelineRuns.ImportInOrderIff`; `HistoryLimits.LoginIsMistaken`,
  `HistoryLimits.ConfirmOvertakes`, `HistoryLimits.ImportOvertakes`.
- A truncate, received as an update or as a new message, and retention remove messages that wait for their
  keys and leave the mark of the halted decryption behind. `Updates.TruncateKeepsIff`,
  `PipelineRuns.ArrivalInOrderIff`, `Retention.DropKeepsIff`; `HistoryLimits.TruncateLosesWaiting`,
  `HistoryLimits.NewTruncateLosesWaiting`, `HistoryLimits.RetentionLosesWaiting`.
- A truncate of a message stored as undecryptable changes its encryption state in RAM and not in the table
  (`src/chatdDb.h:157-161`). `Updates.UpdateKeepsIff`, `HistoryLimits.TruncateDisagrees`.
- An edit that arrives for a message that waits for its keys, and cannot be decrypted itself, leaves the
  message without a row. `Pipeline.EditedTurnIff`, `HistoryLimits.EditMakesHole`.
- A login names the oldest stored message, and OLDMSGs are not compared with what is there: old messages
  that wait for their keys come a second time. `PipelineRuns.NextOldIsFreshIff`,
  `PipelineRuns.OldInOrderIff`, `HistoryLimits.OldComesAgain`.
- A delayed encryption stores its ciphertext in the item at the front, whichever that is by then
  (`src/chatd.cpp:3744-3747`). `SendQueueRuns.SealDelayedIff`, `SendLimits.CiphertextMisplaced`.
- `keyConfirm` asserts that the front carries the key that is confirmed (`src/chatd.cpp:4490-4493`). It does
  exactly when the front has not been answered yet (`SendAnswers.NewKeyIdFindsItsKeyIff`). An edit whose
  message was answered with MSGID stays after its own answer, a MSGUPD under another id, and then the front
  carries no key: `SendAnswers.NewKeyIdMeetsNoOrphanIff`, `SendLimits.KeyMeetsOrphan`.
- `keyConfirm` asserts equal counts. With a key at the front they are equal on every run in which each
  encryption answers at once (`SendSessions.KeyCountsAgree`). While an encryption is delayed, the edit of a
  message whose key is confirmed next is not encrypted either; then they differ, and a null `msgCmd` is
  used. `SendQueueRuns.KeyCountsAgreeIff`, `SendLimits.KeyCountsDiffer`.
- An edit at the front of the queue is removed by an answer to any message (`src/chatd.cpp:4331`), and
  answers are offered to one chat after the other: a chat with an edit at the front takes the answer of
  another one. `SendChats.AnswerReachesIff`, `SendChats.ConfirmReachesIff`,
  `SendLimits.ConfirmationSwallowed`.
- A message that is rejected or answered with MSGID leaves its edits behind, which then block the queue.
  `SendQueueRuns.DropOrphansIff`, `SendQueueRuns.OrphanBlocks`, `SendLimits.RejectionOrphans`.
- `MsgCommand::setMsg` writes the length with eight bytes over a field of four. `Commands.SetMsgFramesIff`.
- `getKeyByUserId` returns sixteen bytes whatever the length of the key. `Commands.EveryKeyIsFoundIff`.
- A chat that once had all its (empty) history still claims so after a later JOIN. That is wrong exactly
  when the log is longer than the batch, or the connection is lost before the batch is through.
  `ProtocolLimits.JoinBatchIff`, `ProtocolTheorems.JoinCutsIff`, `ProtocolTheorems.DisconnectCutsIff`;
  `ProtocolLimits.MessageForgotten`, `ProtocolLimits.BatchLost`.
- A HIST of zero messages, or of more than the server gives at once, makes the client believe that it has
  the whole history. `ProtocolLimits.HistCountDecidesTruth`, `ProtocolLimits.EmptyRequestMisleads`.
- An exception of a handler does not stop the loop over received commands, as its comment says, except that
  of a NEWKEY whose entry overruns its payload (`src/chatd.cpp:2727-2731` and 2748): every command behind it
  is dropped. `Wire.FramesRoundTripIff`, `Wire.OverrunDropsTheRest`.

## Model

| member | source | states |
|---|---|---|
| `ProtocolTheorems.ExactlyOnce` | src/chatd.cpp:4305-4474 | After every run of submits, logins, sends, server writes, answers and disconnects: a temporary id is in the server log at most once; the message is queued or has left the queue, never both; once it has left, the server wrote it under the id the client was told, and that id is in the stored history exactly once, the first message of a new chat included, except for the messages that a JOIN cut off, of which the history has none |
| `ProtocolTheorems.UnsuspectedExactlyOnce` | src/chatd.cpp:6012-6016 | Every message that leaves the queue is stored exactly once, across resends and MSGID answers, as long as the client has not claimed the whole history too early |
| `ProtocolTheorems.JoinCutsIff` | src/chatd.cpp:1641-1667 | A JOIN cuts own messages off if and only if the client already claims the whole history and the log holds one of them below the batch of 32; it makes the claim suspect if and only if the log is longer than the batch |
| `ProtocolTheorems.DisconnectCutsIff` | src/chatd.cpp:1693-1728 | A connection that is lost leaves own messages cut off if and only if the client claims the whole history and one of them is older than what it has received; the claim is suspect if and only if anything is |
| `ProtocolLimits.JoinBatchIff` | src/chatd.cpp:2799-2848 | After a JOIN without history and its batch the client is logged in with the newest 32 messages or all there are; these are the whole log if and only if it has at most 32, and the claim to have the whole history is suspect exactly when it was made before and the log has more |
| `ProtocolLimits.HistRequestIff` | src/chatd.cpp:1859-1871 | From every reachable state at rest without the claim, a request for n messages brings as many, but no more than 256 and no more than there are: the history begins that much earlier in the log and is the log from there on; the client claims the whole history if and only if it got none or fewer than it asked for |
| `ProtocolLimits.NodeRequestBrings` | src/chatd.cpp:1873-1895 | A request for node history appends the attachments that the server has to offer, in their order, and changes nothing else |
| `ProtocolLimits.LateWrite` | src/chatd.cpp:1693-1728 | A message that a lost connection had accepted may be written afterwards, and then only once |
| `ProtocolTheorems.HistoryIsLogSlice` | src/chatd.cpp:4232-4239 | In every reachable state the stored history is a contiguous slice of the server log, in log order and without duplicates |
| `ProtocolTheorems.QuiescentIsComplete` | src/chatd.cpp:6012-6016 | Logged in with nothing in flight, every submitted message has left the queue and the stored history reaches the end of the log |
| `ProtocolTheorems.FetchesAreRouted` | src/chatd.cpp:2203-2210 | The head of the fetch queue names the request that the next OLDMSG or HISTDONE answers, so message history and node history are never mixed up |
| `ProtocolTheorems.AllHistoryIsTrue` | src/chatd.cpp:2799-2848 | A client that claims the whole history has it, message by message, if and only if it is not suspect and no part of it is still arriving; suspect means that a HIST of zero or more than 256 messages was cut short, or that a JOIN of a client that already claimed the whole history met a longer log than its batch of 32, or lost its connection before the batch was through |
| `ProtocolTheorems.Reachable` | src/chatd.cpp:490-521 | The protocol invariant holds in every state reachable from a fresh installation |
| `ProtocolClaims.StepClaims` | src/chatd.cpp:2799-2848 | Every step keeps track exactly of what is claimed wrongly and of which own messages are missing: without a claim none is, and while a connection lasts the missing ones are those below the end of the batch |
| `ProtocolRuns.StepKeeps` | src/chatd.cpp:2120-2220 | Every step of client, channels and server keeps the protocol invariant |
| `ProtocolLimits.HistCountDecidesTruth` | src/chatdMsg.h:140-150 | The conclusion drawn from a HIST answer is right for every server state exactly when the count was 1 to 256 |
| `ProtocolLimits.MessageForgotten` | src/chatd.cpp:1641-1667 | A concrete run in which a message answered with MSGID is in no stored history while the client claims to have all of it: a JOIN with the limit of 32 messages cuts it off |
| `ProtocolLimits.BatchLost` | src/chatd.cpp:1693-1728 | A concrete run with a log of two in which a message is lost because the connection drops inside the batch of a JOIN |
| `ProtocolLimits.EmptyRequestMisleads` | src/chatd.cpp:2799-2848 | A concrete run in which a request for no messages makes the client believe that it has the whole history |
| `ProtocolInvariant.NoBacklog` | src/chatd.cpp:2762-2790 | Once no message fetch is queued, no history OLDMSG is in flight and the client is level with the server cursor |
| `PipelineRuns.RunStaysInOrder` | src/chatd.cpp:5258-5515 | For every interleaving of arrivals, new truncates included, and finished or delayed decryptions of new and old messages, and confirmations, the table is one interval ending at the newest decrypted message, agrees with RAM, and a row once written stays as it is until a newer message is a truncate |
| `PipelineRuns.SettledMeansEqual` | src/chatd.cpp:5258-5515 | When nothing waits for keys and nothing remains to be loaded, table and RAM are the same map |
| `PipelineRuns.ApplyKeeps` | src/chatd.cpp:5189-5256 | One arrival, decryption or confirmation that overtakes no waiting message keeps the history invariant, and every row unless a newer message is a truncate |
| `PipelineRuns.ApplyKeepsIff` | src/chatd.cpp:5189-5480 | One arrival, decryption or confirmation keeps the history invariant if and only if no plain message or confirmation overtakes a waiting new one, no new truncate is written while an old one waits, and no OLDMSG comes twice |
| `PipelineRuns.ArrivalInOrderIff` | src/chatd.cpp:5606-5612 | A new message that arrives in turn keeps the history in order if and only if it is not a truncate written while an old message waits for its keys |
| `PipelineRuns.OldInOrderIff` | src/chatd.cpp:5221-5241 | An OLDMSG keeps the history in order if and only if its id is not there yet |
| `PipelineRuns.NextOldIsFreshIff` | src/chatd.cpp:490-521 | The OLDMSG that follows a login is fresh if and only if no old message waits for its keys |
| `PipelineRuns.NewTruncateClears` | src/chatd.cpp:5606-5612 | A new message that is a truncate leaves itself as the only message of RAM and table |
| `PipelineRuns.ConfirmInOrderIff` | src/chatd.cpp:4382-4391 | A confirmation keeps the history in order if and only if no new message waits for its keys; then it adds exactly one row at the end |
| `PipelineRuns.ImportInOrderIff` | src/chatd.cpp:5326-5333 | An already decrypted (imported) new message keeps the history in order if and only if no new message waits for its keys, and, if it is a truncate, no old one either |
| `PipelineRuns.LoginKnowsItsTableIff` | src/chatd.cpp:5078-5093 | The flag that rows remain to be loaded is right after login if and only if no old message waits for its keys |
| `Pipeline.FinishNewKeeps` | src/chatd.cpp:5440-5456 | When the delayed decryption of a new message ends, consecutive rows are added from its index up, each written once, stopping only at a message whose keys are still missing; a truncate among them takes away exactly what is older |
| `Pipeline.FinishNewIff` | src/chatd.cpp:5440-5456 | The end of a delayed decryption keeps the history in order if and only if no old message waits for its keys or no truncate is among the new messages written |
| `Pipeline.FinishOldKeeps` | src/chatd.cpp:5462-5480 | The same downwards for old messages |
| `Pipeline.ResumeNewKeeps` | src/chatd.cpp:5448-5456 | The resume loop writes consecutive increasing rows, clears what is older than a truncate, and leaves a message at the halted index that still cannot be decrypted |
| `Pipeline.ResumeOldKeeps` | src/chatd.cpp:5471-5479 | The resume loop of old messages writes consecutive decreasing rows |
| `Pipeline.EditedTurnIff` | src/chatd.cpp:5326-5341 | An edit of a loaded message that still waits for its keys: the resume loop settles the message as edited and keeps the order if and only if the edit could be decrypted; otherwise its row is missing |
| `Pipeline.EditedTurnDownIff` | src/chatd.cpp:5326-5341 | The same for a waiting old message |
| `Pipeline.AddNewKeeps` | src/chatd.cpp:5196-5219 | A new message takes the next index; its row is written at once or it queues behind a delayed one; rows go only if it is a truncate |
| `Pipeline.AddOldKeeps` | src/chatd.cpp:5221-5241 | An old message takes the index below the window; its row extends the table downwards or it queues |
| `Contents.NewRowsAreDecrypted` | src/chatd.cpp:5258-5612 | Whatever event is handled, each new row holds the text that the message at its own index was decrypted to, however long it waited, with the type that a special message carries in its text; a confirmed message is stored as it is |
| `Contents.RecordWrites` | src/chatd.cpp:5539-5612 | A decrypted message is stored alike in RAM and table; a text that starts with a zero byte gives it its second byte plus 0x55 modulo 256 as type; a new truncate removes what is older from both, and nothing else changes |
| `Contents.TurnDecides` | src/chatd.cpp:5326-5373 | A plain message is stored, one that failed for good is passed over, and any other is stored if it can be decrypted at once and waits otherwise, or behind one that waits |
| `Contents.OldestKnownIs` | src/chatd.cpp:5207-5241 | The oldest known message is an old one that arrives, and a new one when none was known or it truncates |
| `Lifecycle.HistoryStaysConsistent` | src/chatd.cpp:1928-1996 | Over every run of arrivals, delayed decryptions, confirmations, pages, updates of loaded and of stored messages, truncates, retention, logins and restarts, each of them harmless, RAM and table satisfy the history invariant |
| `Lifecycle.NextKeepsIff` | src/chatd.cpp:490-521 | Each kind of change, retention, edits and truncates during delayed decryptions included, keeps the history invariant if and only if it is harmless: nothing overtakes, changes, repeats or deletes a message that waits for its keys, and a truncate that is applied has no edit delta and an unchanged encryption state |
| `Paging.PagingRebuilds` | src/chatd.cpp:2025-2083 | Repeated loading terminates with every row in RAM under its table index and the newer window untouched |
| `Paging.PageKeeps` | src/chatd.cpp:5243-5251 | One page keeps the invariant and leaves the flag for more rows equal to "the oldest row is below the window" |
| `Paging.PageBrings` | src/chatd.cpp:2025-2083 | One page brings the next count rows below the window, or all that are left, to RAM at their indices, and changes nothing else |
| `Paging.RestartRebuilds` | src/chatd.cpp:1955-1996 | After a restart at any moment the chat opens in a consistent state and paging gives back every decrypted message at its old index |
| `Updates.TruncateKeeps` | src/chatd.cpp:4849-4923 | A truncate leaves RAM and table as the suffix from its index, in agreement, and a second one changes nothing |
| `Updates.TruncateKeepsIff` | src/chatd.cpp:4849-4923 | A truncate leaves a consistent history if and only if its message has been stored and no old message waits for its keys |
| `Updates.TruncateMarksTwice` | src/chatd.cpp:4881-4903 | Clearing the pointers at or below the truncate is idempotent and leaves them unset or above it |
| `Updates.TruncateUnsetsIff` | src/chatd.cpp:4881-4903 | A pointer that is set and not beyond the truncate is unset with its id; any other stays where it is, with its id |
| `Updates.EditWrites` | src/chatd.cpp:4737-4776 | An edit replaces text, delta, type, author and encryption state of the loaded message and of its row, and nothing else anywhere, unless its delta is that of the message; then nothing changes |
| `Updates.TruncateWrites` | src/chatd.cpp:4737-4808 | A truncate replaces text, type, author, timestamp and key id of the message and of its row, RAM taking its delta and state and the row a zero delta, and removes what is older, unless it is there already |
| `Updates.StoredUpdateWrites` | src/chatd.cpp:4827-4839 | The row of a message that is not loaded takes an update, field by field, if and only if its delta is smaller |
| `Updates.ReplayChangesNothing` | src/chatd.cpp:4737-4746 | A replayed edit or truncate of a loaded message, waiting or not, changes neither history nor pointers, wherever later SEENs and RECEIVEDs have moved them |
| `Updates.UpdateKeepsIff` | src/chatd.cpp:4729-4808 | An update of a loaded message keeps the history consistent if and only if it is a replay, or the message has been stored and it is no truncate, or a truncate without an edit delta and with an unchanged encryption state while no old message waits |
| `Updates.UpdateAgreesIff` | src/chatdDb.h:155-168 | An update leaves the message alike in RAM and table if and only if it is no truncate, or one without an edit delta and with an unchanged encryption state |
| `Updates.StoredUpdateTwice` | src/chatd.cpp:4827-4839 | An update of a message that is not loaded is applied once only; with delta zero, as a truncate has, it changes nothing |
| `Updates.StoredUpdateKeeps` | src/chatd.cpp:4827-4839 | An update of a message that is stored and not loaded keeps the history consistent |
| `Retention.KeepsLiveSuffixIff` | src/chatd.cpp:4925-5009 | What remains, loaded or stored, is exactly the longest suffix of live messages, also for non-monotone timestamps and while decryptions are delayed, if and only if: without stored history nothing has expired; otherwise something loaded has, or RAM begins where the table does, or the limit survives its cast to 32 bits (it lies within, or is negative and no row is as old as its cast, or is greater and the newest row is) |
| `Retention.DropKeepsIff` | src/chatdDb.h:686-694 | Deleting through an index keeps the history consistent if and only if it reaches no message that waits for its keys, and an emptied or empty buffer does not start its indices anew below a row that stays |
| `Retention.DropExactly` | src/chatdDb.h:686-694 | The deletion leaves exactly what is above the index, unchanged, in RAM and table alike |
| `Retention.HasMoreStaysExactIff` | src/chatd.cpp:4946-4962 | The flag for more rows, which is not recomputed, stays exact if and only if it was unset, or a row below the window survives, or no row does |
| `Unread.BranchesAgreeIff` | src/chatd.cpp:2947-2984 | Each branch of the unread counter gives the number of unread messages after the seen pointer, negated exactly when the pointer is unset and history incomplete, if and only if a branch that asks the table meets no undecrypted missed call |
| `Unread.QueryCountsUnreadIff` | src/chatdDb.h:273-325 | The two table queries count exactly the unread messages if and only if no missed call after the pointer is unreadable |
| `Unread.UnreadMeans` | src/chatdMsg.h:1219-1269 | A message is unread if and only if it is of another user, readable or undecryptable for good, not deleted, and of one of five types, or a missed call of the two reasons at byte 12 after the given time |
| `Unread.QueriesMean` | src/chatdDb.h:273-325 | The rows that the two queries select, by literal type, time, byte and reason |
| `Unread.RamHoldsUnread` | src/chatdMsg.h:1219-1234 | At or above the window, RAM and table have the same unread messages |
| `ReadMarks.PointersOnlyAdvance` | src/chatd.cpp:3936-4164 | Over every run between resets the seen and received indices never move back and no message is reported as seen, or as delivered, twice |
| `ReadMarks.StepAdvances` | src/chatd.cpp:4021-4103 | One SEEN, RECEIVED or local mark moves its pointer forward or not at all and keeps the reports ascending |
| `ReadMarks.NoticesAreExact` | src/chatd.cpp:4084-4099 | The messages reported when a pointer moves are exactly the loaded ones of the right author in the range, in ascending order |
| `ReadMarks.SeenReports` | src/chatd.cpp:4021-4103 | A SEEN of a known message beyond the pointer moves it there and reports, once and in order, exactly the loaded messages of others that it passes; a covered one changes nothing, an unknown one the id alone |
| `ReadMarks.ReceivedReports` | src/chatd.cpp:3936-3999 | A RECEIVED takes any id, moves the pointer to a known message beyond it and, if that is loaded, reports exactly the loaded own messages that it passes |
| `ReadMarks.MarkReports` | src/chatd.cpp:4105-4164 | Marking a loaded message beyond the pointer moves it there and reports the loaded messages of others that it passes |
| `ReadMarks.SeenSurvivesRestartIff` | src/chatd.cpp:4021-4103 | After a SEEN of any id, whatever the pointer before, a restart finds the pointer where it was left if and only if: the pointer is unset, for an unknown message; it would have before, for a message that the pointer covers; the message is stored and not only loaded, for any other |
| `ReadMarks.ReceivedSurvivesRestartIff` | src/chatd.cpp:3936-3961 | After a RECEIVED of any id a restart finds the pointer where it was left if and only if the message is stored and not older than the pointer, or unknown while the pointer is unset |
| `HistoryLimits.TruncateLosesWaiting` | src/chatd.cpp:4849-4923 | A history reached from an empty chat in which a truncate removes a waiting message and not the mark |
| `HistoryLimits.NewTruncateLosesWaiting` | src/chatd.cpp:5606-5612 | A reached history in which a new truncate does the same |
| `HistoryLimits.ConfirmOvertakes` | src/chatd.cpp:4382-4391 | A reached history in which a confirmation breaks the order of the table |
| `HistoryLimits.ImportOvertakes` | src/chatd.cpp:5326-5333 | A reached history in which an imported message breaks the order of the table |
| `HistoryLimits.LoginIsMistaken` | src/chatd.cpp:5078-5093 | A reached history in which login believes that rows remain to be loaded and none does |
| `HistoryLimits.HasMoreGoesStale` | src/chatd.cpp:4946-4962 | A reached history in which retention leaves the flag for more rows set although all are loaded |
| `HistoryLimits.NegativeLimitDeletesAll` | src/chatd.cpp:5008 | A reached history in which nothing has expired and retention deletes everything |
| `HistoryLimits.RetentionLosesWaiting` | src/chatd.cpp:4925-4989 | A reached history in which retention deletes a waiting message and not the mark |
| `HistoryLimits.ReceivedMovesBack` | src/chatd.cpp:3936-3961 | A reached history in which the pointer found after a restart is older than the one before |
| `HistoryLimits.SeenIsForgotten` | src/chatd.cpp:4068-4077 | A reached history in which a SEEN of an unknown message makes a restart find the pointer unset |
| `HistoryLimits.ReceivedIsForgotten` | src/chatd.cpp:3936-3961 | A reached history in which a RECEIVED of an unknown message does the same |
| `HistoryLimits.TruncateDisagrees` | src/chatd.cpp:4761-4776 | A reached history in which a truncate leaves a message decrypted in RAM and malformed in the table |
| `HistoryLimits.EditMakesHole` | src/chatd.cpp:5336-5341 | A reached history in which an edit that cannot be decrypted leaves a waiting message without a row for good |
| `HistoryLimits.OldComesAgain` | src/chatd.cpp:5221-5241 | A reached history in which the next OLDMSG after a login is a message that waits in RAM |
| `SendQueueRuns.TableIsTheQueue` | src/chatd.cpp:3644-3907 | After every run of posts, encryptions, key and message confirmations, edits, received updates, rejections and restarts, the rows in rowid order are the queue |
| `SendQueueRuns.LoadRebuilds` | src/chatdDb.h:187-255 | Loading the table after a restart rebuilds the queue item by item, except for the edit delta, which is that of the row, and the key id of an unencrypted message |
| `SendQueueRuns.EditsWaitForTheirMessage` | src/chatd.cpp:3887 | While no message is taken away from under its edits, every MSGUPDX waits behind its own message and is never at the front |
| `SendQueueRuns.DropOrphansIff` | src/chatd.cpp:4305-4359 | Removing a message without confirming it leaves an edit without its message if and only if a MSGUPDX for it is queued |
| `SendQueueRuns.ConfirmTurnsItsEdits` | src/chatd.cpp:4404-4414 | The confirmation that removes the front, a new message or a MSGUPD, turns exactly the edits of the confirmed id into MSGUPDs of the new one, in place, and leaves the other items alone, when nothing but edits carries that id |
| `SendQueueRuns.ConfirmKeepsIff` | src/chatd.cpp:4361-4424 | A confirmation, whatever it removes from the front, keeps queue, table and ids in agreement if and only if only edits carry the confirmed id and none of them meets a new message under the new id |
| `SendQueueRuns.OnlyEditsRemain` | src/chatd.cpp:4409 | When the front is a new message, nothing but its edits carries its id behind it, as the original asserts |
| `SendChats.AnswerReachesIff` | src/chatd.cpp:4276-4303 | The answer to a sent message reaches the chat that sent it if and only if no chat tried before has a MSGUPD at the front of its queue |
| `SendChats.ConfirmReachesIff` | src/chatd.cpp:4276-4285 | A confirmation changes the queue of the sender and no other if and only if no chat tried before has a MSGUPD at the front; otherwise the queue of the sender stays as it is |
| `SendChats.MsgConfirm` | src/chatd.cpp:4276-4285 | The loop offers the answer to one chat after the other and stops at the first that takes it |
| `SendLimits.ConfirmationSwallowed` | src/chatd.cpp:4324-4335 | A concrete run of two chats in which the first gives up its edit for the confirmation of the second, whose message stays queued |
| `SendLimits.RejectionOrphans` | src/chatd.cpp:4305-4359 | A concrete run in which a rejection leaves an edit without its message at the front of the queue |
| `SendQueueRuns.KeyCountsAgreeIff` | src/chatd.cpp:4500-4520 | A key confirmation changes as many rows as items if and only if no unencrypted item carries the local key id |
| `SendSessions.KeyCountsAgree` | src/chatd.cpp:4182-4198 | On every run in which each encryption answers at once, a key confirmation that finds a key at the front finds only encrypted messages under its local key id, so that the two counts agree and are not zero; when it finds one is the subject of SendAnswers |
| `SendAnswers.NewKeyIdFindsItsKeyIff` | src/chatd.cpp:4490-4520 | On every run in which the server answers the commands of a connection in order, whether or not an answer takes its item out of the queue, a NEWKEYID finds the key that it confirms at the front if and only if the front has not been answered yet; then the two counts agree and are not zero. Local key ids are distinct and travel with new messages only, which the crypto module promises |
| `SendAnswers.NewKeyIdMeetsNoOrphanIff` | src/chatd.cpp:4490-4493 | On every such run in which answers reach what they answer and no edit that blocks the queue is taken away, a NEWKEYID finds its key at the front if and only if the front is no MSGUPDX, which is the edit of a message answered with MSGID |
| `SendAnswers.StepKeeps` | src/chatd.cpp:4490-4520 | Every event, an answer that is taken by another chat, a rejected NEWKEY and an edit that stays queued after its answer among them, keeps the answers to come in the order of the queue, every key that waits for its NEWKEYID with its message, and what has been answered and is still queued ahead of all that waits |
| `SendLimits.KeyMeetsOrphan` | src/chatd.cpp:4490-4493 | A concrete run from an empty queue in which a lost answer, an edit and a MSGID leave a MSGUPDX without a key at the front when the NEWKEYID of the message behind it comes |
| `SendSessions.StepKeeps` | src/chatd.cpp:4182-4198 | While the client is logged in, mNextUnsent stands at the end of the queue and every message is encrypted |
| `SendQueueRuns.SealDelayedIff` | src/chatd.cpp:3724-3752 | A delayed encryption keeps queue and table in agreement if and only if its message is at the front of the queue when it ends |
| `SendLimits.CiphertextMisplaced` | src/chatd.cpp:3744-3747 | A concrete run in which the ciphertext of the second message replaces that of the first |
| `SendLimits.KeyCountsDiffer` | src/chatd.cpp:4500-4520 | A concrete run with a delayed encryption after which the two counts of a key confirmation differ |
| `SendQueueRuns.ConfirmCountsAgreeIff` | src/chatd.cpp:4404-4424 | A confirmation changes as many rows as items if and only if nothing but edits carries the temporary id |
| `SendQueueRuns.EditCountsAgree` | src/chatd.cpp:3843-3866 | An edit of an unsent message changes as many rows as items |
| `SendQueueRuns.SupersedeFilters` | src/chatd.cpp:4604-4626 | A received own update removes exactly the queued edits that are not newer, or all of them for a truncate, and keeps the order of the rest |
| `SendEffects.SupersedeKeepsNewer` | src/chatd.cpp:4604-4626 | A received own update removes exactly the queued edits of that message that are not newer, or all of them for a truncate; the others keep their order, and exactly their rows stay |
| `SendEffects.SubmitAdds` | src/chatd.cpp:3644-3662 | A new message goes unencrypted to the end of queue and table, under a rowid that is not used, and nothing else changes |
| `SendEffects.EditSentAdds` | src/chatd.cpp:3771-3887 | The edit of a sent message goes there as a MSGUPD under its id and key id, and nothing else changes |
| `SendEffects.EditUnsentRewrites` | src/chatd.cpp:3800-3887 | The edit of an unsent message replaces the text of all its items and rows, and adds a MSGUPDX with that text and delta at the end |
| `SendEffects.SealWrites` | src/chatd.cpp:3675-3720 | Encryption gives an unencrypted item and its row key id, ciphertext and key, and changes no other |
| `SendEffects.KeyConfirmReplaces` | src/chatd.cpp:4500-4512 | Every item and row with the local key id takes the confirmed one and loses its key command, and no other changes |
| `SendEffects.DropIff` | src/chatd.cpp:4305-4359 | The front leaves, with its row and nothing else, if and only if it is the new message that is answered or a MSGUPD |
| `SendEffects.ConfirmWrites` | src/chatd.cpp:4361-4424 | A NEWMSGID takes the front out as an answer does and gives the edits of that message the new id and opcode, in queue and table |
| `SendEffects.RejectEditIff` | src/chatd.cpp:4537-4588 | A rejected edit leaves, with its row and nothing else, if and only if it is at the front |
| `SendSessions.FlushEncrypts` | src/chatd.cpp:4182-4198 | A flush encrypts every item from its start on that is not encrypted yet, each with its own key, and leaves the others |
| `SendQueueRuns.StepKeeps` | src/chatd.cpp:4317-4474 | Every event keeps queue and table in agreement and, unless it orphans an edit, the order of edits |
| `SendQueueRuns.OrphanBlocks` | src/chatd.cpp:4324-4329 | An edit without its message that reaches the front stays there over every run, whatever is posted, answered or restarted, until the server rejects it or an update of that message arrives |
| `SendingQueues.SendingTable.LoadSendQueue` | src/chatdDb.h:187-255 | The loop reads every row once, in rowid order |
| `SendingQueues.SendingQueue.PostMsgToSending` | src/chatd.cpp:3644-3662 | The new item ends queue and table alike, under a rowid above every one given before |
| `SendingQueues.SendingQueue.MsgEncryptAndSend` | src/chatd.cpp:3675-3720 | The item and its row take ciphertext, key id and key command together; an encrypted item stays as it is |
| `SendingQueues.SendingQueue.EncryptionDone` | src/chatd.cpp:3724-3752 | The ciphertext of a delayed encryption goes to the row of its message, and in RAM to the item at the front |
| `SendingQueues.SendingQueue.ConfirmKey` | src/chatd.cpp:4476-4521 | The loop and the statement change queue and table alike, or not at all behind the guards; the counts agree exactly when no unencrypted item is concerned |
| `SendingQueues.SendingQueue.MsgRemoveFromSending` | src/chatd.cpp:4305-4359 | The front leaves queue and table exactly when it is a new message with that id or a MSGUPD; nothing changes otherwise |
| `SendingQueues.SendingQueue.MsgConfirm` | src/chatd.cpp:4361-4424 | The answered front leaves the queue under its new id, the other items with the temporary id become MSGUPDs of the new one, in queue and table; the two counts agree exactly when only edits carry the id |
| `SendingQueues.SendingQueue.MsgModifyUnsent` | src/chatd.cpp:3771-3887 | Every item and every row of the message takes the new content, the edited item takes the delta, and a MSGUPDX ends the queue; the two counts agree |
| `SendingQueues.SendingQueue.CancelEdits` | src/chatd.cpp:4604-4626 | The erasing loop leaves queue and table without the superseded edits and with everything else |
| `SendingQueues.SendingQueue.RejectMsgupd` | src/chatd.cpp:4537-4588 | The front is removed when it is the rejected edit; the three mismatches throw and change nothing |
| `HistoryBuffers.HistoryBuffer.DeleteOlderMessagesIncluding` | src/chatd.cpp:5095-5146 | Exactly the messages above the index remain, at their old indices, the id map restricted to match; beyond an empty forward list the buffer is cleared but the id map is not |
| `HistoryBuffers.HistoryBuffer.PushForward` | src/chatd.h:884-885 | The message takes the index after the newest, every other index keeps its message, and the id map stays the inverse of the buffer |
| `HistoryBuffers.HistoryBuffer.PushBack` | src/chatd.h:884-885 | The message takes the index below the oldest, every other index keeps its message, and the id map stays the inverse of the buffer |
| `HistoryBuffers.HistoryBuffer.FindOrNull` | src/chatd.h:1065-1081 | A message is found exactly for the indices from lownum to highnum |
| `HistoryBuffers.HistoryBuffer.HasNum` | src/chatd.h:1108-1114 | hasNum agrees with findOrNull |
| `HistoryBuffers.HistoryBuffer.Loaded` | src/chatd.h:961-964 | The two lists are a map on the interval from lownum to highnum |
| `HistoryTables.HistoryTable.LoadMessages` | src/chatdDb.h:566-599 | The newest rows at or below an index, in descending order, without a gap, as many as asked for or all |
| `HistoryTables.HistoryTable.GetOldestIdx` | src/chatdDb.h:389-396 | The smallest index of the table |
| `HistoryTables.HistoryTable.GetHistoryInfo` | src/chatdDb.h:18-48 | The ends of the table and the id of its oldest row |
| `HistoryTables.HistoryTable.GetIdxOfMsgid` | src/chatdDb.h:261-272 | The index of a message id, or unset when there is none |
| `HistoryTables.HistoryTable.TruncateHistory` | src/chatdDb.h:371-388 | Exactly the rows from the truncate message on remain |
| `HistoryTables.HistoryTable.GetIdxByRetentionTime` | src/chatdDb.h:678-685 | The newest row as old as the limit, or unset |
| `HistoryTables.HistoryTable.GetUnreadMsgCountAfterIdx` | src/chatdDb.h:273-325 | The counting query plus the loop over ended calls |
| `Chats.Chat.constructor` | src/chatd.cpp:1955-1996 | The chat opens in a consistent state with exactly the newest page of its table in RAM; each pointer is at the row that its stored id names, or unset |
| `Chats.Chat.GetHistoryFromDb` | src/chatd.cpp:2025-2083 | The next rows below the window, and no others, are in RAM at their table indices; the flag for more is exact; pointers that cover the stored messages they name do not move |
| `Chats.Chat.HasMoreHistoryInDb` | src/chatd.cpp:5078-5093 | True exactly when the oldest loaded message is not the oldest known one |
| `Chats.Chat.MsgIncoming` | src/chatd.cpp:5189-5256 | A NEWMSG that is loaded changes nothing and gets its old index; another message gets the next index at its end, is stored, queued or halted as the pipeline says, a pointer that waits for it moves, and a new truncate unsets the pointers at or below it; a consistent chat stays consistent when the arrival overtakes no waiting message |
| `Chats.Chat.MsgIncomingAfterAdd` | src/chatd.cpp:5258-5373 | A decrypted message is stored, and applied if it is a new truncate; an undecryptable one is left; behind a halted one it waits; without keys decryption halts at its index; the result tells whether it is settled |
| `Chats.Chat.MsgIncomingAfterDecrypt` | src/chatd.cpp:5518-5612 | The message, with the type that its second byte gives to a special message, is alike in RAM and table; the table refuses a second row with its index or id; the oldest index is exact; a new truncate leaves nothing older, unsets the pointers at or below it and sets all-history |
| `Chats.Chat.NewDecrypted` | src/chatd.cpp:5422-5456 | When a delayed decryption of a new message ends, its row and those of its successors are written in order, up to the first without keys, truncates among them clear what is older and the pointers, and the chat stays consistent if and only if no old message waits or none of them is a truncate |
| `Chats.Chat.OldDecrypted` | src/chatd.cpp:5422-5480 | The same for an old message, downwards; truncates clear nothing and the pointers stay |
| `Chats.Chat.ConfirmInHistory` | src/chatd.cpp:4382-4395 | The own message takes the next index in buffer and id map and is the newest row; when it is the very first row, retention is applied to it |
| `Chats.Chat.AppendConfirmed` | src/chatd.cpp:4382-4395 | A consistent chat stays consistent when a message is confirmed if and only if no new message is halted |
| `Chats.Chat.OnMsgUpdatedAfterDecrypt` | src/chatd.cpp:4717-4847 | An update, with the type that its second byte gives to a special message, applies to the loaded message, or to the row of one that is only stored, and changes nothing for an unknown one; the chat stays consistent unless a loaded message takes an update that is not agreeable |
| `Chats.Chat.LoadedUpdated` | src/chatd.cpp:4717-4808 | A replay changes nothing; an edit changes RAM and, if there is a row, the table alike; a truncate also drops everything older and resets the pointers at or below it; the chat stays consistent if and only if the update is agreeable |
| `Chats.Chat.StoredUpdated` | src/chatd.cpp:4827-4839 | The row of a message that is not loaded changes only if the edit is newer than the stored one; no other row does, and none for an unknown message |
| `Chats.Chat.HandleTruncate` | src/chatd.cpp:4849-4923 | RAM and table are the suffix from the truncate, the flag for more is cleared, the pointers at or below it are unset in RAM and table, all-history is set and persisted |
| `Chats.Chat.GetIdxByRetentionTime` | src/chatd.cpp:4991-5009 | The newest expired message in RAM, waiting ones included, or else, unless RAM holds the whole table, the newest row as old as the limit after its cast |
| `Chats.Chat.HandleRetentionTime` | src/chatd.cpp:4925-4989 | RAM and table lose exactly what is at or below the expired index, also while decryptions are delayed; without stored history nothing happens; when RAM is left empty indices start anew and the pointers are unset, when the table is, all-history is set; the chat stays consistent if and only if no waiting message is reached |
| `Chats.Chat.CalculateUnreadCount` | src/chatd.cpp:2947-2984 | The counter is the table query when the pointer is unset (negated without all history) or below the window, and the count over RAM otherwise |
| `Chats.Chat.CountUnreadInRam` | src/chatd.cpp:2966-2976 | The loop counts exactly the unread messages after the pointer |
| `Chats.Chat.Notify` | src/chatd.cpp:4084-4099 | The loop reports exactly the loaded messages of the range by the right author, in order |
| `Chats.Chat.OnLastSeen` | src/chatd.cpp:4021-4103 | The seen pointer moves to the message if that is newer, its id is persisted, exactly the messages of others from the old pointer (or the window) up to it are reported, and the counter is worked out; nothing moves back |
| `Chats.Chat.OnLastReceived` | src/chatd.cpp:3936-3999 | The received pointer moves to the message if that is newer, its id is persisted in any case, and exactly the own loaded messages in between are reported |
| `Chats.Chat.SetMessageSeen` | src/chatd.cpp:4105-4164 | A message of another user above the pointer becomes the seen one, with its reports, persisted id and counter; own messages are never marked |
| `Chats.Chat.HandleLastReceivedSeen` | src/chatd.cpp:5740-5761 | A pointer whose id is that of the message moves to it; others stay |
| `Chats.ArrivalMoves` | src/chatd.cpp:5740-5761 | A pointer that waits for the id of an added message, or has it at a smaller index, moves to it; the ids and the other pointer stay |
| `Chats.FinishMarksIff` | src/chatd.cpp:5440-5456 | The end of a delayed decryption unsets a pointer with its id if and only if a truncate at or beyond it is written, be it that message or one behind it |
| `Chats.Chat.IndexOf` | src/chatd.cpp:4021-4041 | The index in RAM if the message is loaded, else its index in the table, else unset |
| `BackRefs.CreateMsgBackRefs` | src/chatd.cpp:3545-3642 | At most seven references at strictly increasing offsets within bounds, no two from one band, one from every band that has an eligible message, each the reference id of the message at its offset |
| `BackRefs.Draw` | src/chatd.cpp:3592-3624 | A band yields an eligible message unless it has none |
| `BackRefs.OffsetsCountBack` | src/chatd.cpp:3608-3610 | Offset 0 is the last item of the queue, and each further one a message back, through the queue and then the history |
| `BackRefs.BandsDouble` | src/chatd.cpp:3578-3590 | There are seven bands of offsets, which end at 1, 2, 4, 8, 16, 32 and 64 |
| `BackRefs.VerifyMsgOrder` | src/chatd.cpp:5717-5738 | Fails exactly when a nonzero reference is known at an index not below the message |
| `BackRefs.HonestLogNeverFails` | src/chatd.cpp:5717-5738 | In an honestly ordered log no mix of forward appends and backward loads fails the check |
| `BackRefs.PrependReportsIff` | src/chatd.cpp:5717-5738 | An old message is reported if and only if it refers to a newer one that is loaded |
| `BackRefs.AppendNeverReports` | src/chatd.cpp:5717-5738 | A new message that is decrypted in its turn is never reported, whatever it refers to |
| `BackRefs.OutOfTurnReportsIff` | src/chatd.cpp:5717-5738 | In whatever order messages are registered, one is reported if and only if it refers to a newer one registered before it |
| `BackRefs.AnyOrderIsSilent` | src/chatd.cpp:5717-5738 | An honestly ordered log never fails the check, in whatever order its messages are decrypted and confirmed |
| `BackRefs.AppendKnows` | src/chatd.cpp:5573-5576 | The index of reference ids stays exact when a message is appended |
| `BackRefs.PrependKnows` | src/chatd.cpp:5573-5576 | The index of reference ids stays exact when a message is prepended |
| `BackRefs.EmplaceKeepsFirst` | src/chatd.cpp:5573-5576 | The first message with a reference id keeps it in the index |
| `Base64Url.RoundTrip` | src/base64url.cpp:5-89 | Decoding an encoded byte string gives it back, for every byte string |
| `Base64Url.EncodedLength` | src/base64url.cpp:21-26 | Encoded length, and every character of it is valid |
| `Base64Url.DecodedLength` | src/base64url.cpp:49-55 | Decoded length is three quarters of the string, rounded down |
| `Base64Url.SpellingsAgree` | src/base64url.cpp:30-36 | The two alphabets of sections 4 and 5 of RFC 4648 decode alike |
| `Base64Url.ReencodesIff` | src/base64url.cpp:52-89 | Encoding what was decoded gives the string back in canonical spelling if and only if its last character has no stray bits |
| `Alphabet.CharactersAre` | src/base64url.cpp:4-21 | Each character of an encoded string is the one that the literal alphabet has at the position given by the base-64 digit of the three octets, read as one number and filled up with zeros |
| `Alphabet.OctetsAre` | src/base64url.cpp:52-89 | Each decoded octet is the base-256 digit of the positions of its four characters |
| `Alphabet.EncodesAlphabet` | src/base64url.cpp:4-21 | The encoder writes the character at that position of the literal alphabet |
| `Alphabet.DecodesAlphabet` | src/base64url.cpp:30-47 | The decoder reads each of the 64 characters as its position |
| `Alphabet.ValidIff` | src/base64url.cpp:30-47 | The decoder accepts exactly these, and + and / for the last two |
| `Base64Url.Base64UrlEncode` | src/base64url.cpp:5-28 | The loop with its cut at the end computes the encoding |
| `Base64Url.Base64UrlDecode` | src/base64url.cpp:50-89 | The octets are written to the start of the output and nothing else; too little space, a bad length and the first invalid character are reported |
| `Wire.FramesRoundTripIff` | src/chatd.cpp:2120-2757 | Commands of any opcode written one after the other are all read back as they were written if and only if no NEWKEY before the last one, for a known chat, has an entry that overruns its payload; the loop reaches the end if and only if none has |
| `Wire.FramesRead` | src/chatd.cpp:2727-2735 | What is read is exactly the commands up to the first such NEWKEY, that one included |
| `Wire.OverrunDropsTheRest` | src/chatd.cpp:2739-2760 | A concrete NEWKEY whose entry announces two bytes of key and carries one makes the loop drop the KEEPALIVE behind it; for an unknown chat it does not |
| `Wire.KeysRoundTrip` | src/chatd.cpp:2739-2760 | Well-formed entries of a NEWKEY never overrun, and reach the crypto module as they were written, except for an empty key at the very end |
| `Wire.OnNewKeys` | src/chatd.cpp:2739-2760 | The loop hands on exactly the entries that lie within the payload and stops at the first that does not |
| `Wire.ParseIsFaithful` | src/chatd.cpp:2120-2757 | A buffer read to its end is exactly the well-formed commands found in it, none of which overruns its payload |
| `Wire.TurnAt` | src/chatd.cpp:2120-2140 | Every turn of the loop moves strictly forward or stops |
| `Wire.ExecCommand` | src/chatd.cpp:2120-2757 | The loop reads exactly the commands that the layouts describe, and stops at a range error, of its own or of the NEWKEY handler, or at an unknown opcode |
| `Wire.NumberRoundTrip` | src/buffer.h:285-340 | A number written with enough bytes is read back |
| `Layouts.LayoutsAre` | src/chatd.cpp:2120-2720 | The loop knows exactly the listed opcodes, takes of each the fields that are read one after the other, and counts its payload by the last of them |
| `Layouts.LowestFirst` | src/buffer.h:285-340 | Byte i of a written number is its digit of weight 256 to the power i |
| `Layouts.MessageOffsets` | src/chatdMsg.h:1597-1603 | The fields of a message command are at offsets 0, 1, 9, 17, 25, 29, 31, 35 and 39 |
| `Layouts.KeyOffsets` | src/chatdMsg.h:1524-1530 | The fields of a key command are at offsets 0, 1, 9, 13 and 17 |
| `Layouts.EntryOffsets` | src/chatdMsg.h:1535-1542 | An entry of a sent key command is user, length and key |
| `Layouts.ReceivedOffsets` | src/chatd.cpp:2739-2760 | An entry of a received one is user, key id, length and key |
| `Commands.SetMsgFramesIff` | src/chatdMsg.h:1623-1627 | A message command is read back as exactly that message if and only if its payload has at least four bytes; after a shorter one each missing byte is read as a KEEPALIVE |
| `Commands.MessagesRoundTrip` | src/chatd.cpp:2167-2213 | Any number of message commands with payloads of at least four bytes is read back field by field |
| `Commands.NewKeyId` | src/chatdMsg.h:1607-1608 | Replacing the key id changes that field and nothing else |
| `Commands.MsgCommand.SetPayload` | src/chatdMsg.h:1623-1627 | The two writes leave the command that SetMsgFramesIff is about |
| `Commands.MsgCommand.SetKeyId` | src/chatdMsg.h:1607-1608 | The write leaves the command that NewKeyId is about |
| `Commands.SetKeyBlobsWrites` | src/chatdMsg.h:1579-1584 | A restored key command is right for entries of any length |
| `Commands.KeyCommand.SetKeyBlobs` | src/chatdMsg.h:1579-1584 | A command without keys takes the stored entries and is the exact key command for them |
| `Commands.EveryKeyIsFoundIff` | src/chatdMsg.h:1544-1571 | Among distinct users each is found with its own key if and only if that key has sixteen bytes |
| `Commands.NoOtherKeyIsFound` | src/chatdMsg.h:1544-1571 | A user without an entry finds no key |
| `Commands.KeyCommand.AddKey` | src/chatdMsg.h:1535-1542 | The command is the header, the exact length of all entries, and the old entries followed by the new one |
| `Commands.KeyCommand.GetKeyByUserId` | src/chatdMsg.h:1544-1571 | The scan over the entries finds the first entry of the user |
| `Reactions.RunsAgree` | src/chatdDb.h:625-658 | Over every run of additions and deletions the list in RAM, and a list reloaded from the table, stand for exactly the pairs of the table |
| `Reactions.AddIsUnion` | src/chatdMsg.h:1399-1417 | Adding keeps reactions distinct and users unrepeated, and adds one pair to the set |
| `Reactions.AddKeepsOrder` | src/chatdMsg.h:1399-1417 | A new reaction goes to the end of the list and a new user to the end of its reaction |
| `Reactions.DelIsDifference` | src/chatdMsg.h:1420-1437 | Deleting removes one pair from the set, and a reaction without users |
| `Reactions.DelKeepsOrder` | src/chatdMsg.h:1420-1437 | What is deleted leaves the others in their order |
| `Reactions.CountIsCardinality` | src/chatdMsg.h:1359-1369 | The count of a reaction is the number of its users in the set |
| `Reactions.ReactionList.AddReaction` | src/chatdMsg.h:1399-1417 | A new reaction ends the list, a new user ends the users of its reaction, and a pair that is there changes nothing |
| `Reactions.ReactionList.DelReaction` | src/chatdMsg.h:1420-1437 | Exactly that user leaves that reaction, and the reaction leaves the list with its last user |

## Left out

- Chats.Chat.MsgIncoming: the retention check that follows the very first row of a table is not part of it; the model asks that retention is off or the table not empty. In `Lifecycle` that check is a change of its own. Where it deletes the very message that was added, the original goes on to use it, which is undefined. Freshness of the ids of new messages is what the server promises; an OLDMSG that is loaded already is the subject of `PipelineRuns.OldInOrderIff`.
- Chats.Chat.MsgIncomingAfterAdd: as above for the first row of a table.
- Chats.Chat.MsgIncomingAfterDecrypt: as above for the first row of a table; when the unread counter is worked out again is stated for truncates only.
- Chats.Chat.NewDecrypted: as above for the first row of a table.
- Chats.Chat.OldDecrypted: as above for the first row of a table.
- Chats.Chat.ConfirmInHistory: the queue part of `msgConfirm` is `SendingQueues.SendingQueue.MsgConfirm`.
- Chats.Chat.HandleRetentionTime: the timer for the next check is not modelled.
- Chats.Chat.SetMessageSeen: the timer fires at once, for a message that is still loaded.
- HistoryBuffers.HistoryBuffer.DeleteOlderMessagesIncluding: beyond the newest message of a non-empty forward list the erase of the original is undefined, and so not modelled.
- SendingQueues.SendingQueue.MsgEncryptAndSend: `msgEncrypt` answers at once; a delayed answer is `SendingQueues.SendingQueue.EncryptionDone`, `mNextUnsent` and the flushes are in `SendSessions`, and that `mEncryptionHalted` stops a flush is not modelled.
- SendingQueues.SendingQueue.ConfirmKey: asks that the front carries the key command that the original asserts; `SendAnswers.NewKeyIdFindsItsKeyIff` says when it does. What the original does without it, a null pointer, is not modelled, and a run of `SendAnswers` ends there.
- SendingQueues.SendingQueue.MsgModifyUnsent: the refusals for age, length and author are not modelled, and the post that `msgModify` schedules follows at once.
- SendQueue.Mirrors: the edit delta of an item is left out of the agreement, because `msgModify` does not persist it.
- BackRefs.Draw: a draw is any offset not tried before; the loop of the original that repeats a draw until it finds one is not modelled.
- Commands.KeyCommand.GetKeyByUserId: reads commands built by `addKey`; malformed entries, where the original reads past the end, are not modelled.
- Wire.ExecCommand: the build with calls enabled; the handlers of the commands are other parts or not modelled, but for the reads of `onNewKeys`.
- Protocol.Step: a request for history tests its guard and is sent in one step; the original schedules the request (`src/chatd.cpp:1830-1843`) and does not test again, so that two could be outstanding.
- Message objects are values: each has a single owner, and no aliasing is modelled.
- Messages of an unknown management type, which are decrypted again when they are loaded.
- `mNextHistFetchIdx`, the last text message, rich links, attachments history (`FilteredHistory`) beyond the routing of its fetches, pending reactions and manual sending.
- RANGE rejections with `clearHistory`, previews, and the HANDLEJOIN variants of login.
- Listener callbacks, except the seen and delivered notifications.
- Sockets, timers, promises, SQL text, schema migrations, and the cryptography behind encrypt and decrypt.
- Calls, scheduled meetings, contacts, titles and presence: they would only add easy members.
