# Finder channel log: a verified model

Finder keeps a chat channel as an append-only log on every device. There is no
server: a device admits a message by checking it against a table of per-sender
sequence numbers, stores it as a record in fixed-size slabs of a byte array, and
catches up from a peer by exchanging a vector clock and a buffer of stored
envelopes. This project models that part of `protocol/` and proves what it keeps.

## How it is laid out

| file | what it holds |
|---|---|
| `Types`, `Channel`, `Chat` | ids, errors, and the node table, causal admission and chat rules as functions on values |
| `ChannelState`, `ChatRoom` | the same as the objects the program updates in place, proved against those functions |
| `Codec`, `Slab`, `Storage`, `Search` | big-endian and varint codecs, the slab layout, `MemIO`/`SlabWriter`/`Storage` over an `array<byte>`, the two cursor searches |
| `Replicas`, `History`, `LogIndex`, `Recovery` | one device: delivery, replay of a log, what every run keeps, stored indexes, reopening, failures that come too late |
| `Sync`, `Convergence`, `Clocks`, `Framing` | two devices: the clock merge, the least clock, framing, catch-up and agreement |
| `Network` | all devices of a channel as a transition system, and what holds in every reachable state |
| `Device`, `Client`, `SyncRound`, `Restart`, `Refinement` | the client object: its steps on bytes are the ones above; a sync round, a two-way sync and a restart, end to end |

`Deliver` is the heart: check, accept, receive, add the node, store, in that order
and with the intermediate changes left behind by a failing step, as in `do_send` and
`do_receive`. A replica is `Live` when its memory is what its stored log replays to.
A log is `Founded` when NewChannel is its first record, names the owner the table was
seeded with, and does not occur again: what `init_chat` writes and `send_message` and
`add_node` cannot spoil. A later NewChannel would overwrite the owner
(protocol/src/chat.rs:79-87).

## Main results

- `Network.EveryRunIsSafe`: in every state reachable from the founding of a channel by
  joins, sends, relays and buffer exchanges, be they taken, refused or stopped halfway
  through a buffer, every replica is the replay of its own log, and its copy of each sender's messages is the beginning of what that sender
  wrote. `SendersAreOrdered` and `GapsAreDetected` are two of the three guarantees of
  protocol/design.md:45-53 in every such state; `History.CausallyClosed` is the third.
- `SyncRound.SyncOnce`: a whole round between two clients, on bytes. The requester takes,
  as one exchange, exactly the records from the least merged clock on that the buffer has
  room for, and is refused none of them. It ends with the merge of both logs up to there,
  and holds everything, with the pointwise maximum of both clocks, if and only if it had
  every record from there on before. The round reports an error if and only if there is no
  record to start from. The merged clock cannot outgrow its bound.
- `SyncRound.SyncBothWays`: two such rounds, one each way; when both reach the end of the
  other's log, both devices hold the same messages, members, message count and node list,
  though in different log orders and with slabs of different sizes.
- `Refinement`: founding, sends and rounds of clients are steps of the network, so its
  safety is theirs, and in every state they reach any two devices may start a round.
- `History.AdmittedIff`, `CheckIsVerdict`, `AcceptIsVerdict`: the table admits a message if
  and only if it follows the log, and what it and the chat say of any other, down to the
  numbers, is a function of the log. `Recovery.WireRefused`, `Device.SendRefused`,
  `Framing.BufferRefused`: what is refused before memory has changed changes nothing.
- `Recovery.MemoryMatchesLog`, `Recovery.OpensIfReplays`, `Restart.OpenAgain`: exactly when
  memory matches the stored log, when that log opens again, for whom, and how much of it
  comes back.
- `SlabStorage.ReadAll`, `Storage.Search`: reading and searching bytes across slabs is
  reading and searching the sequence of records that was written.

## Where the code does less than one might expect

Each is stated as the code has it, with the exact condition.

- A new user that is already a node, a full table or a full slab is noticed after the
  chat and the table have changed (protocol/src/lib.rs:582-604,
  protocol/src/lib.rs:630-649). Memory matches the log if and only if the step did not
  fail in this way (`Recovery.MemoryMatchesLog`), which the error alone tells
  (`LateByError`); `AddingTwiceRunsAhead` is a concrete case. As long as the device runs,
  peers refuse everything a sender writes after a message of its own failed so
  (`LateFailureSilencesSender`), and a receiver answers a message that failed so as already
  received and never stores it (`LateFailureLosesMessage`).
- A restart undoes such a failure as long as nothing was stored after it: what is stored
  opens to the replica from before it. Once a message of the same sender has been stored,
  the log opens for nobody (`ReopenAfterLateFailure`). For a device that only sends after
  its own failure that is exact (`SendsAfterLateFailure`); `HelloAfterAddingTwice` is a
  concrete log that its owner wrote and cannot open.
- What is stored opens if and only if it replays (`OpensIfReplays`), and every log of a run
  without late failures does. `open_chat` seeds the table with the opener's key
  (protocol/src/lib.rs:407-411), so a log that begins with its founder's record opens if
  and only if it replays and the opener founded it (`ReopenOnlyByFounder`).
- `MemIO::new` counts no slab (protocol/src/storage/mem_io.rs:19-20) and `Storage::read`
  stops at the count (protocol/src/storage.rs:236). A reader sees all of a log without
  empty slabs if and only if every slab is visible to it (`ReadAll`, `EndOfCounted`,
  `AllIsVisible`). So `open_chat` over the bytes a client left gives the founder the replay
  of the first slab. That is what the client had in memory if and only if it never wrote a
  second and memory matched the log (`Restart.OpenBytes`). Such a device still finds by
  number every stored message whose author it knows, whatever its own count is
  (`Client.GetMessage`, `Restart.LooksBeyond`), and sends no further than the slab it starts
  in (`Client.FillSendBuffer`).
- `new_writer` takes the slab the count points at (protocol/src/storage/mem_io.rs:46-54),
  stored or not. A commit keeps every stored slab if and only if that slab is the first
  free one or gets what it held (`MemIO.Commit`, `Slab.PutKeeps`). The first message that a
  device sends or takes in after opening uncounted bytes takes the place of the first
  record, and then nobody opens them, unless that message founds a channel itself
  (`Restart.SendAfterRestart`, `Restart.ReceiveAfterRestart`).
- A device that came back with the beginning of its log leaves the others' copies ahead of
  its own messages exactly if one of them holds more of those than it does
  (`Network.RestartKeepsIff`). It may sync them back (`RestartedIsPeer`); what it sends
  before that is refused by everyone who holds more of its messages (`ForkIsRefused`).
- `fill_send_buffer` reports an error when no stored record reaches the least clock
  (protocol/src/lib.rs:252-257). That is exactly when the round fails, and then the
  requester lacks nothing (`SyncOnce`). The test runner would stop there
  (protocol/src/test/runner.rs:232-233).
- `fill_send_buffer` starts from the least clock each time (protocol/src/lib.rs:263-264).
  A round brings nothing if and only if the requester already had all that fitted
  (`SyncRound.NothingNewExactly`).
- Equal rows mean an equal `newest` if and only if one node alone has the greatest
  sequence and id (`Convergence.NewestIsDetermined`), as is so when different messages have
  different envelope ids (`DistinctIdsDecide`).

Where code and comments disagree the model follows the code: a node missing from a
request gets its first sequence, not 0 (protocol/src/lib.rs:162-179); `cause` is a node
id and an unknown cause counts as sequence 0, with no `EnvelopeId(0)` in it
(protocol/src/channel.rs:40-42); the slab layout has no separate sequence before a
record (protocol/src/storage/slab.rs:81).

## Model

| member | source | states |
|---|---|---|
| Channel.SeededValid | protocol/src/channel.rs:92-111 | a table of one silent node satisfies the table invariant, given room for one |
| Channel.AddNodeValid | protocol/src/channel.rs:117-139 | adding a node keeps the invariant and the greatest sequence |
| Channel.AddNodeReports | protocol/src/channel.rs:117-139 | a present node is reported as such even in a full table, else a full table with its bound, else one silent row is added and no other changed |
| Channel.ReceiveValid | protocol/src/channel.rs:154-185 | on a valid table `receive` fails exactly when the check does and with the same error (the unreachable branches are dead), keeps the invariant, returns the true maximum over all rows, and raises it by at most one |
| Channel.AddressedIsAdmitted | protocol/src/channel.rs:254-286 | addressing succeeds exactly for a known sender below the counter's end; the message is always received by the same table, becomes the newest and raises the maximum by exactly one |
| Channel.AddNodeCommutes | protocol/src/lib.rs:431-442 | adding a node before or after `receive` gives the same table, maximum, verdict and failures, so the reopening order and the live order agree |
| ChannelTable.SortedIsCanonical | protocol/src/channel.rs:86-89 | two sorted node lists of the same table are the same list |
| ChannelTable.BinarySearch | protocol/src/channel.rs:118 | finds an id exactly when it is listed, and otherwise the one place that keeps the list sorted |
| ChannelTable.ChannelState.constructor | protocol/src/channel.rs:92-111 | the new object is valid and is the one-node table |
| ChannelTable.ChannelState.New | protocol/src/channel.rs:92-111 | fails with the bound exactly when it is zero |
| ChannelTable.ChannelState.AddNode | protocol/src/channel.rs:117-139 | the sorted list after the insertion is the table after `AddNode`; a refusal changes nothing |
| ChannelTable.ChannelState.GetNodeKey | protocol/src/channel.rs:141-152 | the key of a listed node, or UnknownNode |
| ChannelTable.ChannelState.CheckReceive | protocol/src/channel.rs:197-252 | decides on the list exactly what the table's check decides, and finds the sender's place |
| ChannelTable.ChannelState.GetCurrent | protocol/src/channel.rs:288-297 | never fails on a valid table, and returns the newest row |
| ChannelTable.ChannelState.Receive | protocol/src/channel.rs:154-185 | updates list and newest to the table that `Receive` gives, or changes nothing |
| ChannelTable.ChannelState.Address | protocol/src/channel.rs:254-286 | the message that the table would address, with all three errors |
| ChatRoom.ChatRoom.constructor | protocol/src/chat.rs:58-66 | nobody owns or belongs to a new chat |
| ChatRoom.ChatRoom.AddUser | protocol/src/chat.rs:118-125 | a known user's key is replaced, a new one needs room, a refusal changes nothing |
| ChatRoom.ChatRoom.AcceptMessage | protocol/src/chat.rs:72-116 | owner, members and counter after each kind of message, or an error and no change |
| Codec.BigEndianRoundTrip | protocol/src/storage.rs:258-284 | a number written big-endian reads back, at every width it fits |
| Codec.BytesRoundTrip | protocol/src/storage.rs:258-284 | any bytes are the big-endian form of the number they read as |
| Codec.BigEndianDigit | protocol/src/storage.rs:258-284 | which byte of a number is where: the most significant first |
| Codec.ReadU32Back | protocol/src/storage.rs:258-263 | reading where four big-endian bytes were written gives the number and the offset past them |
| Codec.ReadU64Back | protocol/src/storage.rs:272-277 | the same for eight bytes |
| Codec.ReadsWhatIsLeft | protocol/src/storage.rs:286-298 | reading fails, with OutOfBounds, exactly when too few bytes are left |
| Codec.VarintRoundTrip | protocol/src/storage.rs:59-66 | a varint decodes to its value and leaves what follows it, within the byte limit |
| Codec.VarintByte | protocol/src/storage.rs:59-66 | seven bits a byte, the lowest first, the high bit on all but the last |
| Codec.EndlessVarint | protocol/src/storage.rs:59-66 | ten bytes that all announce another are no number |
| Codec.TooGreatVarint | protocol/src/storage.rs:59-66 | nor is a number that exceeds eight bytes |
| Codec.RecordRoundTrip | protocol/src/storage.rs:59-66 | decoding an encoded record gives the record |
| Codec.FieldsInOrder | protocol/src/storage.rs:59-66 | the fields are laid out as they are declared: three varints, the 32 bytes of the sender, the length and the data |
| Codec.TruncatedRecord | protocol/src/storage/slab.rs:60-64 | no proper beginning of an encoded record decodes to a record |
| Codec.RecordSize | protocol/src/storage.rs:59-66 | an encoded record exceeds its data by at least one byte and at most a constant |
| Codec.FrameAt | protocol/src/storage/slab.rs:10 | where the j-th length and payload of a run of frames are |
| Slab.SlabReads | protocol/src/storage/slab.rs:14-73 | a slab that holds records yields record j and a cursor at j + 1, and nothing after the last |
| Slab.BlankReadsNothing | protocol/src/storage/slab.rs:40-43 | a slab whose count was never written yields nothing |
| Slab.DamagedSlab | protocol/src/storage/slab.rs:40-73 | a zero length ends a slab, one beyond it is CorruptDB, and less than a record is a PostcardError |
| Slab.LastIsGreatest | protocol/src/storage/slab.rs:115-124 | of the maxima of a slab in the order it insists on, the last is the greatest |
| Slab.ScratchKeepsStores | protocol/src/storage/mem_io.rs:69-86 | bytes written behind an uncommitted header change nothing that can be read from any slab |
| Slab.ScratchKeepsOthers | protocol/src/storage/mem_io.rs:69-86 | bytes written anywhere inside one slab leave every other slab as it was |
| Slab.HeaderPutsSlab | protocol/src/storage/mem_io.rs:88-101 | writing the header of a slab over records laid out behind it makes exactly that slab hold them, whatever it held, and leaves the others |
| Slab.PutKeeps | protocol/src/storage/mem_io.rs:46-54 | writing slab k keeps every stored slab if and only if k is the first free one or gets what it held |
| SlabStorage.WriteU32 | protocol/src/storage.rs:265-270 | overwrites four bytes and nothing else, or fails without a change |
| SlabStorage.WriteU64 | protocol/src/storage.rs:279-284 | overwrites eight bytes and nothing else, or fails without a change |
| SlabStorage.MemIO.New | protocol/src/storage/mem_io.rs:13-26 | any array, with no slab counted, or an error for slabs of size zero; when its slabs hold records or are blank it can be read |
| SlabStorage.MemIO.GetSlab | protocol/src/storage/mem_io.rs:56-67 | exactly the bytes of the slab asked for, or OutOfBounds past the array |
| SlabStorage.MemIO.WriteRecord | protocol/src/storage/mem_io.rs:69-86 | writes one frame inside its span, or reports SlabFull having touched only that span |
| SlabStorage.MemIO.Commit | protocol/src/storage/mem_io.rs:88-101 | the pending records take the place of the slab the count points at, counted or not; only the header's bytes change and every other slab stays |
| SlabStorage.SlabWriter.constructor | protocol/src/storage/slab.rs:86-97 | a writer with nothing pending, past the header of the slab the count points at |
| SlabStorage.SlabWriter.WriteRecord | protocol/src/storage/slab.rs:99-128 | OutOfOrder, SlabFull or one more pending record; the pending maxima ascend and the writer's is the greatest of them; whatever happens, no stored slab changes but the one written, and none at all when all are counted |
| SlabStorage.SlabWriter.Commit | protocol/src/storage/slab.rs:130-134 | all pending records, in order, become the slab the count points at, which is then counted; the bytes of its header read as their number and the greatest of their maxima, and they follow from byte 12 |
| SlabStorage.FlatAt | protocol/src/storage.rs:228-246 | record j of slab i is record j after all records of the slabs before it |
| SlabStorage.Storage.Search | protocol/src/storage.rs:151-182 | the cursor of the first record, in log order over all slabs, whose key is at or above the value, and None exactly when there is none |
| SlabStorage.Storage.GetCursorFromSequence | protocol/src/storage.rs:151-182 | the first record whose stored maximum reaches the sequence |
| SlabStorage.Storage.GetCursorFromIndex | protocol/src/storage.rs:184-218 | the first record whose stored message count reaches the index |
| SlabStorage.Storage.Read | protocol/src/storage.rs:220-251 | the data of the record at a place in the log and the next place, across a slab boundary, None at the end, and the error of an empty slab |
| SlabStorage.ReadStep | protocol/src/storage.rs:220-251 | every read on the way from a slab to where reading stops gives the next record of the whole log, and only the last one the stop |
| SlabStorage.EndOfCounted | protocol/src/storage.rs:232-250 | without empty slabs reading stops at the first slab that is not counted, but not before the end of the one it started in |
| SlabStorage.ShownIsCounted | protocol/src/storage.rs:232-250 | from the head the counted slabs are seen, and the first in any case |
| SlabStorage.Storage.GetWriter | protocol/src/storage.rs:253-255 | a fresh writer over the slab the count points at, stored or not |
| SlabStorage.ReadAll | protocol/src/storage.rs:220-251 | reading from a place on gives the data of all later records up to where reading stops, in order, and then None or the error of an empty counted slab |
| SlabStorage.AllIsVisible | protocol/src/storage.rs:236-238 | a reader sees the whole log if and only if it sees every slab |
| Search.SplitPoint | protocol/src/storage.rs:169-175 | on ascending keys the search stops at the only point that splits smaller from larger |
| Replicas.LiveStep | protocol/src/lib.rs:609-652 | a successful delivery appends its envelope and keeps memory equal to the replay of the log |
| Replicas.ReplayPrefix | protocol/src/lib.rs:417-443 | every prefix of a log that replays also replays, to a prefix of the entries |
| Replicas.RefitReplays | protocol/src/lib.rs:598-604 | a log replays to the same replica on every device whose slabs have room for its entries |
| History.TableIsHistory | protocol/src/channel.rs:154-252 | over every run the table is what the log's senders and AddUser records determine, and each sender's messages form a chain without gap, repeat or reordering |
| History.ChatIsHistory | protocol/src/chat.rs:72-125 | over every founded run the counter is the number of chat messages, the members are the owner and those added, and every AddUser is the owner's |
| History.MembersAreNodes | protocol/src/lib.rs:630-643 | chat users and table nodes are the same set |
| History.AuthorsWereAdded | protocol/src/chat.rs:91-106 | the author of every record is the owner or was added by an earlier record of the owner's |
| History.ReplayAt | protocol/src/lib.rs:417-443 | record k of a log was delivered, successfully, to the replay of the records before it |
| History.CausallyClosed | protocol/src/channel.rs:212-249 | before every record come its sender's previous message and a message of its cause at least one below its sequence |
| History.NoRepeats | protocol/src/channel.rs:213-215 | no message is stored twice |
| History.AdmittedIff | protocol/src/channel.rs:197-252 | after any run a message is admitted if and only if its sender belongs, it follows its sender's last message and its cause has reached the sequence below it in the log |
| History.CheckIsVerdict | protocol/src/channel.rs:197-252 | after any run what the check says of any message follows from the log: who is unknown, what was received, and of whom which sequence is held and which is missing |
| History.AddressTellsLog | protocol/src/channel.rs:254-286 | after any run a member addresses the next sequence of the whole log, after its own last message and caused by a node at the maximum; a stranger is unknown, and only the counter's end overflows |
| History.AcceptIsVerdict | protocol/src/chat.rs:72-125 | on founded logs which messages the chat refuses and with which error, and what it reports of the others |
| History.AcceptLeaves | protocol/src/chat.rs:78-115 | what an accepted message leaves of any chat: owner, members, their keys and the count, and nothing else changed |
| History.TableStaysValid | protocol/src/channel.rs:85-185 | the table invariant holds over every run, and the newest row's sequence is the greatest in the log |
| History.NewestIsGreatest | protocol/src/channel.rs:166-173 | over every run the newest row is the lexicographically greatest by sequence and then id |
| History.DeliverValid | protocol/src/lib.rs:586-590 | no delivery, successful or not, breaks the table or takes a branch marked unreachable |
| History.NoJump | protocol/src/channel.rs:36-38 | after k records the greatest sequence is at most k, and every value from 1 up to it occurs in the log |
| LogIndex.StoredIndexes | protocol/src/lib.rs:644-648 | record k is stored with the greatest sequence and the number of chat messages up to and including it |
| LogIndex.IndexesAscend | protocol/src/storage/slab.rs:115-124 | over every run, across slabs, both stored indexes never decrease, and no record's own sequence exceeds its stored maximum |
| LogIndex.SearchSplitsLog | protocol/src/storage.rs:151-218 | over every run each cursor search stops at the one point of the log with every smaller key before it and every other after it |
| LogIndex.MessageLookup | protocol/src/lib.rs:346-364 | the search for message i stops at the i-th chat message, never at a membership record of the same count; it finds nothing exactly when there are fewer; index 0 finds the first record |
| Recovery.ReloadMatchesDeliver | protocol/src/lib.rs:431-442 | reloading a stored message leads to the table and chat that delivering it live led to |
| Recovery.ReopenRebuilds | protocol/src/lib.rs:406-457 | reopening a log under the seed it was written with rebuilds the live table and chat |
| Recovery.ReloadIsDelivery | protocol/src/lib.rs:426-442 | one turn of the reopening loop does on every stored message what delivery on storage with room does, with the same table and chat or the same error |
| Recovery.ReloadFault | protocol/src/lib.rs:421-429 | stored bytes that are not a member's envelope are reported as on arrival |
| Recovery.OpensIfReplays | protocol/src/lib.rs:406-457 | any stored log opens if and only if it replays, to the table and chat it replays to |
| Recovery.ReopenOnlyByFounder | protocol/src/lib.rs:407-411 | any log that begins with its founder's record opens if and only if it replays and the opener founded it; any other key gets UnknownNode |
| Recovery.MemoryMatchesLog | protocol/src/lib.rs:609-652 | after a delivery memory is the replay of the log if and only if it did not fail late, and any other refusal changes nothing |
| Recovery.LateByError | protocol/src/lib.rs:592-604 | the error alone tells whether a delivery failed after memory had changed |
| Recovery.DeliveryReports | protocol/src/lib.rs:628-649 | which error a delivery reports, step by step, and that only one without an error leaves a record |
| Recovery.DeliveryLeaves | protocol/src/lib.rs:630-649 | what a message that the check and the chat let through leaves of every row and of the chat, with or without an error |
| Recovery.WireRefused | protocol/src/lib.rs:609-632 | bytes that are refused before memory has changed change nothing at all; malformed, unknown and forged ones are, each with its error |
| Recovery.WireKeepsLive | protocol/src/lib.rs:609-652 | received bytes leave memory equal to the log if and only if they were not refused late |
| Recovery.LateOutcome | protocol/src/lib.rs:636-649 | a late failure stores nothing but has advanced the sender's row |
| Recovery.AddingTwiceRunsAhead | protocol/src/lib.rs:592-596 | a concrete late failure: adding a present node leaves a table that no log explains |
| Recovery.LateFailureSilencesSender | protocol/src/lib.rs:582-604 | after a late failure of its own message, whatever a sender addresses as long as it runs is refused by every peer, whatever that peer has received since, as missing a message nobody holds |
| Recovery.LateFailureLosesMessage | protocol/src/lib.rs:628-649 | after a late failure of a received message, whatever arrives as long as the device runs, that message is answered as already received and is never stored |
| Recovery.ReopenAfterLateFailure | protocol/src/lib.rs:406-457 | after a late failure the stored log opens to the replica from before it while nothing more is stored, and for nobody once a message of the same sender has been stored, whatever else arrived |
| Recovery.SendsAfterLateFailure | protocol/src/lib.rs:550-607 | a device that only sends after its own late failure can open its log if and only if none of those messages was stored |
| Recovery.NextSendIsMissed | protocol/src/lib.rs:426-433 | when the next stored record is the same sender's, opening fails there, naming the lost sequence |
| Recovery.HelloAfterAddingTwice | protocol/src/lib.rs:592-604 | a concrete log that its owner wrote without an error and cannot open |
| Sync.OwnerAddsAll | protocol/src/chat.rs:91-102 | who has all of the owner's messages another log has knows every member of that log |
| Sync.HeldFrame | protocol/src/channel.rs:214-215 | a frame the receiver has is recognised as already received |
| Sync.HeldFromTheStart | protocol/src/channel.rs:213-222 | in a sync the frames that are skipped are exactly those the receiver had before it began |
| Sync.NewFrameChecks | protocol/src/channel.rs:212-249 | a frame the receiver lacks passes the check, because it passed at the peer and the receiver has all the peer had then |
| Sync.NewFrameAccepted | protocol/src/chat.rs:72-116 | and the chat accepts it: the author is a member, the owner is the same, and there is room |
| Sync.NewFrameTaken | protocol/src/lib.rs:609-652 | so it is delivered without an error |
| Sync.MergeStep | protocol/src/lib.rs:295-310 | one frame more and the receiver holds the merge of its first log and the sender's up to that frame |
| Sync.FramesMerge | protocol/src/lib.rs:287-313 | a peer that has everything before record c takes every frame from c on, and ends with the merge of both logs up to the last frame |
| Sync.NothingSkipped | protocol/src/lib.rs:252-257 | the requester has every record before the first one the least clock finds, and all of them when there is none |
| Convergence.CatchUp | protocol/src/lib.rs:140-313 | a full sync is refused nothing and gives the requester the union of the node tables, the pointwise maximum of the clocks and exactly the messages of both |
| Convergence.HoldsBothIff | protocol/src/lib.rs:140-313 | after a sync that got as far as record m the requester holds everything if and only if it had every record from m on before |
| Convergence.MissingOfMerge | protocol/src/lib.rs:140-313 | what the responder lacks of the merge it lacked of the requester's first log |
| Convergence.SameChainsSameState | protocol/src/channel.rs:154-185 | replicas with the same messages of every sender have the same rows and chat and, when one node alone is at the top, the same newest node, in whatever order the messages came |
| Convergence.NewestIsDetermined | protocol/src/channel.rs:166-173 | the rows of a table determine its newest node if and only if one node alone has the greatest sequence and id |
| Convergence.DistinctIdsDecide | protocol/src/channel.rs:166-173 | with ids that differ for different messages one node alone has |
| Convergence.TwoWaySyncConverges | protocol/src/lib.rs:140-313 | after a sync each way both hold the same messages, table, members and message count |
| Convergence.MergeStaysPeer | protocol/src/lib.rs:140-313 | after any part of a sync the two can sync the other way round |
| Network.FoundingHolds | protocol/src/lib.rs:459-527 | the state after founding a channel satisfies the global invariant |
| Network.TakeKeeps | protocol/src/lib.rs:609-652 | taking in a message another device wrote keeps the global invariant and every sender's own messages |
| Network.SendKeeps | protocol/src/lib.rs:550-607 | sending on one's own replica keeps the global invariant |
| Network.JoinKeeps | protocol/src/lib.rs:529-547 | a device that joins with an empty log keeps the global invariant |
| Network.TakenOrUnchanged | protocol/src/lib.rs:609-652 | a message that did not fail late was taken in or changed nothing |
| Network.RestartKeepsIff | protocol/src/lib.rs:406-457 | a device that comes back with the beginning of its log keeps the global invariant if and only if nobody else holds more of its messages |
| Network.RestartedIsPeer | protocol/src/lib.rs:140-313 | such a device meets what a sync asks, with anyone |
| Network.ForkIsRefused | protocol/src/channel.rs:212-222 | what a device addresses while a peer holds more of its messages, that peer refuses, as received or as missing its own last |
| Network.NextKeeps | protocol/src/lib.rs:287-652 | every step of every device keeps the global invariant: those that succeed, those refused before memory changed, and buffers that stop at a refused frame and keep the ones before it |
| Network.EveryRunIsSafe | protocol/src/lib.rs:287-652 | in every reachable state each replica is the replay of its log and each copy of a sender's messages is the beginning of what it wrote |
| Network.SendersAreOrdered | protocol/design.md:49 | any two replicas agree, sender by sender, on their common prefix |
| Network.GapsAreDetected | protocol/design.md:51 | handed message i of a sender, a device tells whether it has it, lacks an earlier one (and which), or lacks what caused it (and how much), or else admits it as the next |
| Network.EverySyncSucceeds | protocol/src/lib.rs:140-313 | in every reachable state any device syncs from any other: with a record to start from nothing is refused and it ends with everything either held and the invariant intact, and with none it holds everything already |
| Network.InvGivesPeers | protocol/src/lib.rs:140-313 | in every reachable state any two devices meet what a sync asks of them |
| Clocks.MergeIsMergedClock | protocol/src/lib.rs:162-239 | the merge of ascending clocks is ascending over the union of the nodes, with the request's value where it has the node and the first sequence in the responder's table elsewhere |
| Clocks.FirstTellsLog | protocol/src/lib.rs:218-219 | on a live responder that first sequence is the one of the node's first stored message, or zero |
| Clocks.RequestTellsTable | protocol/src/lib.rs:149-157 | a request carries every node of the requester's table with its last sequence, ascending, and nothing else |
| Clocks.RequestTellsLog | protocol/src/lib.rs:149-157 | on a live requester that is the sequence of the node's last stored message, or zero |
| Clocks.MergeSize | protocol/src/lib.rs:188-232 | its length is the size of the union, so it fails exactly when the union outgrows the bound |
| Clocks.GetMinSequence | protocol/src/sync.rs:38-51 | the least sequence of a clock, and None exactly for an empty one |
| Clocks.LeastOfMerged | protocol/src/sync.rs:38-51 | the least merged entry is the least of the requester's last sequences and, for nodes it does not know, the responder's first ones |
| Clocks.OneLeastClock | protocol/src/sync.rs:38-51 | there is only one such number |
| Framing.StartsAtLeast | protocol/src/lib.rs:252-257 | filling starts at the first record whose maximum some clock does not exceed, and every record before it is below all of them; without a clock there is none |
| Framing.AppendFrame | protocol/src/lib.rs:270-279 | writes a length and the bytes at an offset and nothing else |
| Framing.StoredIsShort | protocol/src/lib.rs:270 | no stored envelope is too long for its four-byte length |
| Framing.NextFrame | protocol/src/lib.rs:295-310 | one turn of the receiving loop, and what it means for the whole loop: an error ends it, a known message does not |
| Framing.FramesComeBack | protocol/src/lib.rs:287-313 | applying k frames of a buffer that starts with framed envelopes is applying the first k envelopes, whatever follows |
| Framing.ReceivesParsed | protocol/src/lib.rs:293-303 | the frames of any buffer do not depend on who receives them, and a buffer that ends early is an error for everyone |
| Framing.BufferAppliesOnce | protocol/src/lib.rs:305-309 | a buffer of any bytes that was applied without an error is applied again without one and changes nothing |
| Framing.BufferRefused | protocol/src/lib.rs:305-309 | a buffer refused before memory has changed leaves what its frames before the refused one left, and memory equal to the log |
| Framing.BufferEndsEarly | protocol/src/lib.rs:297-303 | a buffer that ends before a length is OutOfBounds, before an envelope Unreachable, after the frames before it have been applied |
| Device.ShortIsRoomy | protocol/src/storage/slab.rs:75-97 | an envelope below a given length fits a slab whatever indexes are stored with it |
| Device.LiveLookup | protocol/src/lib.rs:346-364 | on a founded live replica the lookup by index finds the text of the message with that number, and nothing else |
| Device.LookupFault | protocol/src/lib.rs:356-359 | a stored record that is not a member's envelope is reported as on arrival |
| Device.AddressedTaken | protocol/src/lib.rs:564-604 | an addressed message is taken if and only if its sender may write it and the record fits |
| Device.SendsSucceedIff | protocol/src/lib.rs:550-607 | a send on a live replica succeeds if and only if the sender is known, the channel is founded, the counter has room, it may write this message, and envelope and record fit |
| Device.SendRefused | protocol/src/lib.rs:564-584 | a send that cannot be addressed or sealed, or is refused on receipt, changes nothing, and which of these is reported |
| Device.SendKeepsLive | protocol/src/lib.rs:550-607 | a send leaves memory equal to the log if and only if it did not fail late |
| Device.SlabForOne | protocol/src/lib.rs:598-604 | a step takes a writer for at most one slab: when it stores a record, or finds no room for it |
| Device.ReopenedIsTheSame | protocol/src/lib.rs:406-457 | the stored records of a live replica reopen to its table and chat, and no other log has the same records |
| Client.Client.Store | protocol/src/lib.rs:644-649 | one record more, in the slab the count points at, if and only if it fits; a log that was stored in full stays so |
| Client.Client.TakeIn | protocol/src/lib.rs:579-606 | table, chat and log after the shared steps are those of `Deliver`, with its error, and the storage has one slab written or none |
| Client.Client.DoReceive | protocol/src/lib.rs:609-652 | the whole step on bytes: malformed, unknown sender, forged, refused, late failure or stored; unless it failed late, an error changes nothing |
| Client.Client.DoSend | protocol/src/lib.rs:550-607 | the outcome on the replica of addressing, sealing and delivering one's own message; unless it failed late, an error changes nothing; Device.SendsSucceedIff says when it is a success |
| Client.Client.SendMessage | protocol/src/lib.rs:324-334 | more than 1024 bytes are refused; unless it failed late, an error changes nothing |
| Client.Client.AddNode | protocol/src/lib.rs:367-385 | a name of more than 128 bytes is refused; unless it failed late, an error changes nothing |
| Client.Client.GetMessage | protocol/src/lib.rs:336-365 | from bytes through the index search over every stored slab, counted or not: what the first record that reaches the index says, or the error; Device.LiveLookup says which message that is |
| Client.Client.FinishSyncRequest | protocol/src/lib.rs:140-160 | every node of the table, in order, with the sequence of its last message |
| Client.Client.StartSyncResponse | protocol/src/lib.rs:167-239 | the loops compute the merge, and fail exactly when the union of the nodes outgrows the bound |
| Client.Client.FillSendBuffer | protocol/src/lib.rs:241-285 | from the first needed record on, the longest run of stored envelopes that fits, up to where reading stops, with exact count and offset and the rest of the buffer untouched; an error exactly when there is no such record, or when all fits and reading stops at an empty slab; the whole suffix of the log when every slab is counted |
| Client.Client.FillFrom | protocol/src/lib.rs:259-284 | the filling loop stops only where reading stops or when the next envelope does not fit |
| Client.Client.ReceiveBuffer | protocol/src/lib.rs:287-313 | on any bytes: what applying the frames one after another gives, stopping at the first error |
| Client.AddChannel | protocol/src/lib.rs:529-547 | a client whose table is seeded with the given key, over any storage |
| Client.InitChat | protocol/src/lib.rs:459-527 | the founder's client after the NewChannel record, in the first slab of any array, or the error that prevented it, StringTooLarge for a long name |
| Client.ReloadInto | protocol/src/lib.rs:426-442 | one turn of the reopening loop moves table and chat as `Reload` does, the node added before the message is received, and stops with the same first error |
| Client.ReloadAll | protocol/src/lib.rs:415-444 | over every record visible from the head, on any array, the state that `Reopen` gives, its first error, or the error of an empty counted slab |
| Client.OpenChat | protocol/src/lib.rs:406-457 | on any array of stored records opens with the state that reloading every visible one gives, or with the first error |
| SyncRound.UnionFits | protocol/src/lib.rs:188-232 | the node tables of two peers together never need more rows than the bound |
| SyncRound.RequestMerges | protocol/src/lib.rs:167-252 | between peers the merge fits, is not empty, and its least entry is the least of the requester's last sequences and the responder's first ones of nodes it does not know |
| SyncRound.FilledFillsTo | protocol/src/lib.rs:262-282 | a filled buffer holds the records from the start on that it has room for, and no more fit |
| SyncRound.FillsOnce | protocol/src/lib.rs:262-282 | there is one such place in the log, and it is the end exactly when the suffix has room |
| SyncRound.BufferMerges | protocol/src/lib.rs:241-313 | whatever part found room, the requester takes it all as one exchange, ends with the merge up to there and stores only what it lacked |
| SyncRound.NothingNewExactly | protocol/src/lib.rs:262-268 | a round brings nothing if and only if the requester had all that fitted |
| SyncRound.SyncOnce | protocol/src/test/runner.rs:200-254 | request, merge, fill and receive between two clients: from the first record whose maximum reaches the least clock on, exactly the records that have room are taken and none refused, everything is held if and only if the rest was held before, and the round fails exactly when there is nothing to start from |
| SyncRound.SameNodes | protocol/src/channel.rs:113-115 | devices of the same channel list the same nodes in the same order |
| SyncRound.SyncBothWays | protocol/src/test/runner.rs:200-254 | two such rounds, each with where it starts and how far it gets; when both reach the end the two devices hold the same channel and list the same nodes |
| Restart.PrefixOpens | protocol/src/lib.rs:406-457 | the beginning of a log opens if and only if it replays and the opener founded it, to what it replays to |
| Restart.OpenAgain | protocol/src/lib.rs:406-457 | the founder opens an array with a client's records if and only if those it shows replay, and has what the client had in memory if and only if all are shown and memory matched the log; any other key gets UnknownNode |
| Restart.OpenBytes | protocol/src/storage/mem_io.rs:13-26 | over a new `MemIO` the first slab is what comes back: what the client had if and only if no second was written and memory matched the log |
| Restart.LooksBeyond | protocol/src/lib.rs:346-364 | a device that has the beginning of a stored log in memory finds by number every message of the whole log whose author it knows |
| Restart.ContinuationDoesNotOpen | protocol/src/channel.rs:212-222 | a log whose first record continues an earlier one opens for nobody |
| Restart.OneRecordOpens | protocol/src/lib.rs:406-457 | a log of one record opens for a key if and only if that record founds a channel and is the key's own |
| Restart.ReceiveAfterRestart | protocol/src/storage/mem_io.rs:46-54 | the first message taken in over uncounted bytes replaces the first record, and the bytes then open if and only if it founds a channel for the opener |
| Restart.SendAfterRestart | protocol/src/storage/mem_io.rs:46-54 | the first message after opening uncounted bytes replaces the first record, and the bytes then open for nobody |
| Refinement.InitIsFounding | protocol/src/lib.rs:459-527 | what founds a client's channel founds the network |
| Refinement.SendIsStep | protocol/src/lib.rs:550-607 | a client's send is a step of the network with the same error and outcome, or could not be sealed and changes nothing |
| Refinement.RoundIsStep | protocol/src/test/runner.rs:200-254 | a round between two clients is a step of the network |
| Refinement.RoundsAreSafe | protocol/src/test/runner.rs:200-254 | in every reachable state any two devices may start a round, and the global invariant holds after it |
| Refinement.SendsAreSafe | protocol/src/lib.rs:550-607 | a client's send that does not fail late keeps the global invariant |

## Left out

- Cryptography. Ids are numbers below 2^256, ordered as their big-endian bytes are; a key is identified with its fingerprint. `Crypto` holds two arbitrary functions, what received bytes open to and what sealing gives; `Authentic` says only that sealed bytes open to what was sealed.
- The envelope's serialization and its `to` field, which the client never checks; strings are their UTF-8 bytes.
- `NewChannel`'s channel id as a hash of the message, and its nonce: both are parameters.
- Maps of many channels and their `UnknownChannel` and `ChannelLimit` errors: a client here has one channel.
- The wire layer, discovery, packet reassembly, timers, logging and the device programs.
- `remove_node`, `truncate`, `free_slabs`, `bytes_budget` and data retention: unimplemented or unused by the code above.
- `heap_type.rs`: one unsafe static cell.
- `usize`: offsets are unbounded, so the overflow checks on them have no counterpart. `u32` and `u64` are bounded types.
- Progress over several rounds with a small buffer: the code does not provide it.
- SlabStorage.Storage.Search: the source writes the loop twice, once for each key; here both searches call one loop with the key as a parameter.
- Client.Client.TakeIn: the steps `do_send` and `do_receive` have in common are one method.
- Client.Client.Store: asks for a free slab, because `new_writer` does not check for one and a write past the last slab is out of bounds; the methods above it ask for as many as the step will use.
- SlabStorage.SlabWriter.WriteRecord: asks for four bytes left in the slab, because the length is skipped over without a check.
- SlabStorage.MemIO.New: an array can be used when its slabs hold more than a header and the unwritten ones are blank; other bytes are not modelled.
- Client.InitChat: asks for a free slab in the array.
- SyncRound.SyncOnce: the responder's storage holds its log and counts every slab, so it is not one that has just opened uncounted bytes and has only the first slab in memory. What such a responder sends is Client.Client.FillSendBuffer.
- SyncRound.SyncBothWays: asks that of both devices.
- Sync.FramesMerge: the two logs together have at most 2^64 - 1 records, so that the message counter cannot overflow while merging, and an envelope of the responder's fits the requester's slabs whatever indexes are stored with it; Device.ShortIsRoomy gives a length that suffices.
- Recovery.LateFailureSilencesSender: the peer has only received messages of the sender that it wrote before the lost one or after it, which is what the lemma shows of those after it.
- Network.NextKeeps: a step that fails after memory has changed, and a restart, are not steps of a run; Recovery.ReopenAfterLateFailure and Network.RestartKeepsIff say what they do.
