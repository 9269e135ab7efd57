# Tumbleweed: a verified model of the log, the consumer groups and the wire format

Tumbleweed is a small message broker. Producers append records to a topic's write-ahead log; consumer groups
lease messages from it, acknowledge or reject them, and persist how far they have come; clients talk to it in
length-prefixed frames. This project models the three layers and proves what each is for:

* **Log** (`Records`, `Recovery`, `Wal`, `Reopen`, `WalFiles`). A segmented log with position indexes stands for an
  append-only sequence of entries. Appends, rolls and indexed reads agree with that sequence; opening a directory
  recovers it from the log files whatever the index files hold, and after a stop at any byte of an append.
* **Consumer groups** (`Leases`, `Deliveries`, `Group`, `Batches`, `Runs`, `Progress`, `Effects`, `ConsumerGroups`). The operations of a
  group are shown to be sequences of five events (deliver, nack, ack, dead-letter). Every history of such events
  keeps a contiguous window, loses nothing, retires finally, does not deliver twice within a lease, and respects the
  redelivery limit under an exact condition. A fetch is described in closed form for any batch size, and no message
  waits for ever: `Progress` bounds, exactly, how many fetches can pass over it. `Effects` says outright what each
  operation changes and what it leaves alone. The theorems are over all runs of operations, with an arbitrary clock, arbitrary failures of
  reads, saves and dead-letter appends, and over any number of restarts.
* **Wire format** (`Bytes`, `Parsing`, `Protocol`, `Marshalling`, `Frames`). For every body with a variable part, what
  a decoder accepts is stated exactly, in both directions; frame and request streams round-trip.
* `EndToEnd` puts the layers together: what a consumer decodes is what was appended.

`WalFiles.Segment`, `WalFiles.WAL` and `ConsumerGroups.ConsumerGroup` are objects updated in place, as in the
program; `Marshalling` fills byte arrays behind a moving index. Their methods are proved against functions on
values, and the theorems are about those functions. The checksum is a parameter: everything holds for every
function from bytes to 32 bits. Times are integers, and are not assumed to be monotonic.

## What the proofs found

* The size of a record is added up in 32 bits. `Recovery.IndexRecoveryExact` (and `Reopen.ReopenExactly` for a
  whole log) says that a log survives reopening if and only if every record is smaller than 2^32 bytes; `Recovery.WrapExample`
  gives a record on which reopening does not end. On arbitrary files recovery ends and is idempotent unless a
  declared size wraps (`Recovery.NoWrapRecovers`). Appending and reading are correct beyond that limit: exactly as long as key and value
  are each shorter than 2^32 bytes (`Wal.LogRefinesSequence`).
* The comment at pkg/wal/wal.go:266 speaks of truncating to the last clean position. A record cut behind its
  25-byte header is not truncated but counted and indexed (`Recovery.CutRecordKept`). `Reopen.CrashDuringAppend`
  states for every byte at which an append can stop what reopening gives, and that all offsets below the next one
  are readable if and only if the stop was not between the header and the end of the record.
* The next append after such a reopening is acknowledged. It is there after the next reopening if and only if the
  file that ends in the cut record was full, so that the append rolled to a segment of its own
  (`Reopen.AppendAfterCutExactly`). In the same file it is never found again, however long it is: the scan resumes
  where the cut record would have ended. If it fits into the missing part, its offset is even given out again
  (`Reopen.AppendAfterCutIsLost`). If it fills the missing part exactly, the acknowledged record after it is returned
  for its offset, and not found at its own (`Reopen.ReadUnderWrongOffset`): a read does not compare the offset in
  the record with the one asked for.
* A record that cannot be read stops a group for good: no run in which it stays unreadable gets past it
  (`Runs.UnreadableStops`). The record cut by a stop is one, as long as the files read as they do after the
  recovery (`EndToEnd.CutRecordStopsGroups`).
* Asking for enough messages does not get a consumer to a message, since redeliveries come first and leases may run
  out between its fetches. What does is the number of fetches: once more than `(o - c0) * (1 + limit)` of them could
  have got as far as offset `o`, it has been delivered (`Progress.DeliveredWithin`), in any run whatever. That number
  cannot be lowered (`Progress.BoundIsReached`). For messages whose lease has run out the same number bounds how often
  they are passed over (`Progress.NoStarvation`).
* The redelivery limit can be passed, because the handoff of a nacked message does not look at it:
  `Runs.LimitPassedInARun` is a run of four operations in which a message is delivered twice although the limit is 0.
  A run respects the limit in every state if and only if no message that has reached it is nacked while a fetch is
  waiting (`Runs.LimitRespectedExactly`; `Deliveries.LimitKeptExactly` for histories of events), and then no message
  is delivered more often than the limit and the first delivery allow. Without that condition the bound has a term
  for handoffs (`Deliveries.RedeliveryBound`); deliveries other than handoffs are always within the limit
  (`Deliveries.LeasingsBounded`).
* A lease check uses up a waiting fetch even when it gives the message up or cannot read it
  (`Batches.CheckPairsFirstWithFirst` says exactly when the fetch is answered). Giving up succeeds even when the
  copy to the dead-letter topic fails; `Runs.RunIsLegal` counts exactly the copies made, and
  `Runs.EveryEventIsTruthful` says that a copy was made exactly if its read and append worked.

## Model

| member | source | states |
|---|---|---|
| Bytes.BigRoundTrip | pkg/protocol/protocol.go:100-109 | a number written in a fixed width reads back as itself if and only if it fits the width, so a length too long for its prefix is not recovered |
| Bytes.BigEndian | pkg/protocol/protocol.go:100-109 | the first byte of a number is the most significant one |
| Parsing.ReadFieldExact | pkg/protocol/protocol.go:118-130 | a length-prefixed field is read from some bytes exactly when they are its encoding followed by the rest, and its length fits |
| Parsing.ReadListExact | pkg/protocol/protocol.go:274-314 | a counted list is read exactly from the encodings of lists whose count fits 32 bits and whose items fit, for any faithful item format |
| Parsing.ListLayout | pkg/protocol/protocol.go:248-272 | each item of a list stands behind the count and the items before it |
| Protocol.ReadProduceExact | pkg/protocol/protocol.go:97-141 | a produce body is decoded to r with rest left over if and only if it is Marshal(r) followed by rest and r's lengths fit |
| Protocol.ReadFetchExact | pkg/protocol/protocol.go:171-233 | the same for fetch requests |
| Protocol.ReadAckExact | pkg/protocol/protocol.go:323-362 | the same for ack and nack requests |
| Protocol.ReadMessageExact | pkg/protocol/protocol.go:283-310 | the same for one message of a fetch response, timestamps as two's complement |
| Protocol.ReadFetchResponseExact | pkg/protocol/protocol.go:248-314 | a fetch response body is accepted if and only if some list's encoding is a prefix of it, and that unique list is returned |
| Protocol.ReadListTopicsExact | pkg/protocol/protocol.go:470-511 | the same for topic lists |
| Protocol.ProduceLayout | pkg/protocol/protocol.go:97-112 | the bytes of a produce body place by place: topic, key and value, each behind its length |
| Protocol.FetchLayout | pkg/protocol/protocol.go:171-194 | the same for fetch bodies: topic, group, consumer, then maximum, lease time and poll time |
| Protocol.AckLayout | pkg/protocol/protocol.go:323-339 | the same for ack bodies: topic, group, offset |
| Protocol.MessageLayout | pkg/protocol/protocol.go:258-271 | the same for one message: offset, timestamp in two's complement, key, value |
| Protocol.FetchResponseLayout | pkg/protocol/protocol.go:248-272 | the same for a fetch response: the number of messages, then the messages in order |
| Protocol.ListTopicsLayout | pkg/protocol/protocol.go:470-488 | the same for a topic list |
| Marshalling.MarshalProduce | pkg/protocol/protocol.go:97-112 | the buffer filled in place is the encoding, all of it and nothing else |
| Marshalling.MarshalFetch | pkg/protocol/protocol.go:171-194 | the same for fetch requests |
| Marshalling.MarshalAck | pkg/protocol/protocol.go:323-339 | the same for ack requests |
| Marshalling.FetchResponseSize | pkg/protocol/protocol.go:249-253 | the size pass is the length of the encoding |
| Marshalling.MarshalFetchResponse | pkg/protocol/protocol.go:248-272 | the fill pass writes the encoding and ends exactly at the end of the buffer the size pass asked for |
| Marshalling.ListTopicsSize | pkg/protocol/protocol.go:471-474 | the size pass is the length of the encoding |
| Marshalling.MarshalListTopics | pkg/protocol/protocol.go:470-488 | the fill pass writes the encoding and ends exactly at the end of the buffer |
| Marshalling.UnmarshalProduce | pkg/protocol/protocol.go:114-141 | the index arithmetic never leaves the body and decodes exactly what the format says |
| Marshalling.UnmarshalFetch | pkg/protocol/protocol.go:196-233 | the same for fetch requests |
| Marshalling.UnmarshalAck | pkg/protocol/protocol.go:341-362 | the same for ack requests |
| Marshalling.TakeMessage | pkg/protocol/protocol.go:283-310 | one round of the decoding loop takes exactly one message or fails exactly when there is none |
| Marshalling.UnmarshalFetchResponse | pkg/protocol/protocol.go:274-314 | the loop decodes exactly what the format says, for every body |
| Marshalling.UnmarshalListTopics | pkg/protocol/protocol.go:490-511 | the same for topic lists |
| Frames.ReadFrameExact | pkg/protocol/protocol.go:48-86 | a frame is read from a stream exactly when the stream is the written frame followed by the rest, its length field that of its body |
| Frames.FrameLayout | pkg/protocol/protocol.go:71-86 | the bytes of a frame place by place: kind, request id, length of the body, body |
| Frames.DecodeRequestExact | pkg/protocol/protocol.go:11-17 | which frames carry which request: the numbers of the kinds, a body that starts with the encoding, and nothing else |
| Frames.FrameStreamRoundTrip | pkg/protocol/protocol.go:48-86 | any list of frames with bodies under 2^32 bytes comes back from its written bytes plus any suffix, lengths corrected, the suffix left over |
| Frames.RequestRoundTrip | pkg/protocol/protocol.go:97-362 | a request comes back from the frame written for it, whatever follows, if and only if its lengths fit their prefixes and its body the frame |
| Frames.RequestStreamRoundTrip | pkg/protocol/protocol.go:48-362 | a list of requests is read back from one connection's bytes, ids included, if and only if all of them fit |
| Records.FieldsAreEncode | pkg/wal/wal.go:378-391 | the fields of a record determine its bytes, checksum included |
| Records.RecordLayout | pkg/wal/wal.go:378-391 | the bytes of a record place by place, from the magic byte 0x54 to the checksum of all bytes before it |
| Records.ChecksumCoversRecord | pkg/wal/wal.go:389-391 | the last four bytes are the checksum of all the others |
| Records.DecodeComplete | pkg/wal/wal.go:497-559 | a written record reads back, wherever it stands in a log |
| Records.DecodeSound | pkg/wal/wal.go:497-559 | a read returns a record only where its exact encoding stands, checksum included |
| Records.DecodeExact | pkg/wal/wal.go:384-385 | a written record reads back exactly if its lengths fit four bytes each |
| Records.DecodeOutcomes | pkg/wal/wal.go:497-559 | what a read makes of any bytes: a record exactly where a whole one stands with the checksum of all its other bytes, corruption exactly where the magic byte is missing or that checksum is wrong, otherwise the end of the file |
| Wal.OnlyStorableRead | pkg/wal/wal.go:517-559 | whatever the files hold, only entries that fit their length fields are read |
| Wal.ReadAnyIndex | pkg/wal/wal.go:481-496 | reading through any index bytes: the entry of the offset as a signed position, not-found behind the end of the index |
| Recovery.ScanBounds | pkg/wal/wal.go:208-264 | the scan passes only headers inside the file, in increasing order, and ends past the file exactly when it found no damage |
| Recovery.ScanChain | pkg/wal/wal.go:205-264 | the scan over any bytes step by step: from each header to where its declared size modulo 2^32 leads, and why it ends |
| Recovery.StuckOnlyByWrap | pkg/wal/wal.go:235-262 | the scan fails to advance only at a record whose size is a multiple of 2^32 |
| Recovery.RecoverIdempotent | pkg/wal/wal.go:188-316 | a second recovery changes neither file, on any two files on which the scan ends and cuts no header |
| Recovery.RecoveredExactly | pkg/wal/wal.go:266-316 | from any files on which the scan ends and keeps its headers: the log up to the end of the scan, the index listing exactly the records passed |
| Recovery.SizesKeepHeaders | pkg/wal/wal.go:267-307 | no header is cut, so the rebuilding scan cannot fail, unless a size wraps below 25 bytes |
| Recovery.NoWrapRecovers | pkg/wal/wal.go:188-316 | on any two files whatever, recovery ends, cuts no header and is idempotent, unless a scanned header declares 2^32 bytes or more |
| Recovery.ScanWhole | pkg/wal/wal.go:205-264 | over a log of records the scan passes exactly the record starts and goes on behind them |
| Recovery.TailRecoveryExact | pkg/wal/wal.go:213-272 | behind any records and with any index, recovery ends and keeps exactly the records if and only if the tail is under 25 bytes or lacks the magic byte |
| Recovery.IndexRecoveryExact | pkg/wal/wal.go:188-316 | a log of records ends the scan, stays as it is and gets exactly the index of its record starts, from any index bytes, if and only if every record is under 2^32 bytes |
| Recovery.WrapExample | pkg/wal/wal.go:239 | a storable record on which the scan never ends |
| Recovery.CutRecordKept | pkg/wal/wal.go:228-272 | a record cut behind its header is kept, counted and indexed |
| Recovery.CutThenMore | pkg/wal/wal.go:258-272 | bytes appended behind a cut record within its declared extent are never scanned |
| Recovery.PastCut | pkg/wal/wal.go:258-272 | whatever is appended behind a cut record, the scan passes nothing before the place where the cut record would have ended |
| Wal.RollRefines | pkg/wal/wal.go:438-461 | a roll, and a stop right after it, change nothing of what the log stands for |
| Wal.AppendRefines | pkg/wal/wal.go:357-435 | one append, rolling or not, appends one entry to the sequence the segments stand for |
| Wal.RollsExactly | pkg/wal/wal.go:366-371 | an append rolls if and only if the last segment is full, and touches nothing but the last file |
| Wal.ReadRefines | pkg/wal/wal.go:464-576 | a read gives the entry at every offset below the length of the sequence and not-found at every other |
| Wal.AppendRun | pkg/wal/wal.go:357-461 | after any run of appends with any number of rolls the segments stand for the entries appended |
| Wal.LogRefinesSequence | pkg/wal/wal.go:357-576 | after any run of appends every read gives the entry appended at that offset or not-found, if and only if every key and value was shorter than 2^32 bytes |
| Sorting.ListingUnique | pkg/wal/wal.go:110-112 | a set has one increasing listing, so the order in which files or leases are met does not matter |
| Reopen.NextOfSegment | pkg/wal/wal.go:319-354 | the next offset recovered from a segment is its base offset plus the number of its records |
| Reopen.NextAfterRecovery | pkg/wal/wal.go:319-354 | on any recovered files: the base offset if there is no record, else one past the offset in the last header, in 64 bits; it can always be read |
| Reopen.FreshLog | pkg/wal/wal.go:125-131 | an empty directory is a log of nothing that starts at offset 0, the state every run of appends starts from |
| Reopen.ReopenPreserves | pkg/wal/wal.go:89-141 | loading the logs of any reachable log, with any index files, gives back the same segments and the same next offset |
| Reopen.ReopenExactly | pkg/wal/wal.go:114-123 | recovery ends and gives back every segment of a log if and only if every record in it is under 2^32 bytes |
| Reopen.TornEarly | pkg/wal/wal.go:213-272 | stopped before a whole header was written, reopening gives exactly the entries before |
| Reopen.TornLate | pkg/wal/wal.go:393-411 | stopped with the record whole, reopening gives the entries with the new one, index or no index |
| Reopen.TornMiddle | pkg/wal/wal.go:228-272 | stopped in between, every complete record still reads back and the cut one runs into the end of the file |
| Reopen.CrashDuringAppend | pkg/wal/wal.go:188-411 | for a stop at any byte: the recovered next offset, all earlier entries readable, and everything below the next offset readable if and only if the stop was not inside the body |
| Reopen.AppendAfterCutExactly | pkg/wal/wal.go:188-372 | an append acknowledged behind a cut record is there after the next reopening if and only if it rolled, that is if the file was full |
| Reopen.AppendAfterCutIsLost | pkg/wal/wal.go:259-272 | if it did not roll and fits into the missing part, its offset is given out again after the next reopening |
| Reopen.ReadUnderWrongOffset | pkg/wal/wal.go:481-559 | if that append fills the missing part exactly, the next one is returned for its offset and not found at its own |
| WalFiles.Segment.Write | pkg/wal/wal.go:393-415 | record at the end of the log file, its position at the end of the index file |
| WalFiles.Segment.ReadAt | pkg/wal/wal.go:481-559 | position from the index, record from the log, for any file contents |
| WalFiles.Segment.Verify | pkg/wal/wal.go:197-264 | the verifying loop ends where the scan ends, counts its records, and lets the index stay only if it is right so far |
| WalFiles.Segment.RewriteIndex | pkg/wal/wal.go:276-307 | the rebuilding loop visits the same positions as the verifying one and fails exactly when a header was cut |
| WalFiles.Segment.VerifyOrRebuildIndex | pkg/wal/wal.go:188-316 | on any two files the log is cut where the scan ends and the index becomes the list of record positions |
| WalFiles.WAL.FindSegment | pkg/wal/wal.go:563-576 | binary search finds the last segment whose base offset is not past the offset |
| WalFiles.WAL.Read | pkg/wal/wal.go:464-560 | reads the appended entry at every offset below the next one and not-found elsewhere |
| WalFiles.WAL.Roll | pkg/wal/wal.go:438-461 | adds one empty active segment at the next offset and touches no other |
| WalFiles.WAL.Append | pkg/wal/wal.go:357-435 | rolls when the active segment is full, appends one record, and keeps the log standing for its entries |
| WalFiles.AppendPossible | pkg/wal/wal.go:366-372 | in a log that stands for its entries the next offset is past the base of the active segment unless that is empty, so a roll never reuses a base offset |
| WalFiles.OpenSegments | pkg/wal/wal.go:114-123 | recovers every segment in order, or fails at the first that cannot be recovered |
| WalFiles.Open | pkg/wal/wal.go:64-141 | opens any directory the scan ends on and fails exactly when a recovery fails, since the next offset can always be read; an empty directory opens as the log of nothing, next offset 0 |
| WalFiles.OpenAgain | pkg/wal/wal.go:64-141 | opening the files of a log gives a log of the same entries and next offset |
| Leases.RetireKeeps | pkg/broker/coordinator.go:564-580 | marking an offset and sliding keeps the window and its end |
| Leases.WindowKept | pkg/broker/coordinator.go:276-324 | every event keeps the leases a contiguous interval from the committed offset, its head unacked, its ends never moving back |
| Leases.WindowAlways | pkg/broker/coordinator.go:387-580 | so in every state of every history |
| Leases.EndWithinLog | pkg/broker/coordinator.go:445-474 | the end of the window never passes the end of the log |
| Leases.NothingLost | pkg/broker/coordinator.go:493-503 | an offset is retired if and only if it was acked or dead-lettered |
| Leases.RetirementJustified | pkg/broker/coordinator.go:414-424 | every retired offset was leased at the time, and a dead-lettered one expired with its redeliveries used up |
| Leases.CommittedIsLeastUnretired | pkg/broker/coordinator.go:564-580 | the sliding window refines a set: the committed offset is the least offset not retired |
| Leases.RetirementFinal | pkg/broker/coordinator.go:493-525 | after a retirement the only event about the offset is another ack, and it changes nothing |
| Leases.AckAgain | pkg/broker/coordinator.go:497-503 | acking an acked lease changes nothing |
| Deliveries.DeliveredExactly | pkg/broker/coordinator.go:445-474 | what has been delivered is exactly what lies between the starting offset and the end of the window |
| Deliveries.VisibilityExclusion | pkg/broker/coordinator.go:391-434 | a second delivery is strictly after the first one's expiry unless a nack came in between |
| Deliveries.LeftAlone | pkg/broker/coordinator.go:387-580 | events about other offsets never lease, retire or change an offset, however the window slides |
| Deliveries.FirstDeliveriesInOrder | pkg/broker/coordinator.go:290-309 | first deliveries are in order and without gaps from the starting offset on |
| Deliveries.RedeliveryBound | pkg/broker/coordinator.go:414-434 | redeliveries are at most the limit plus the handoffs, deliveries at most one more |
| Deliveries.LeasingsBounded | pkg/broker/coordinator.go:414-434 | deliveries other than handoffs are at most one more than the limit, whatever handoffs there are |
| Deliveries.LimitPassedExactly | pkg/broker/coordinator.go:414-434 | an event takes a lease past the redelivery limit if and only if it is a handoff of a message that has reached it |
| Deliveries.LimitKeptExactly | pkg/broker/coordinator.go:414-548 | a history respects the limit at every moment if and only if it hands on no message that has reached it |
| Deliveries.LimitCanBePassed | pkg/broker/coordinator.go:533-541 | a legal history with limit 0 in which a message is delivered twice |
| Deliveries.LimitBoundsDeliveries | pkg/broker/coordinator.go:414-434 | where the limit is respected no message is delivered more often than the limit and one |
| Deliveries.AckOrderIrrelevant | pkg/broker/coordinator.go:493-505 | acking the same leased offsets in any order, with any repetitions, ends in the same committed offset and leases |
| Group.AckFollows | pkg/broker/coordinator.go:480-506 | an ack is a legal history of the lease protocol with its saves accounted for |
| Group.NackFollows | pkg/broker/coordinator.go:509-560 | so is a nack, with or without handoff |
| Group.DispatchFollows | pkg/broker/coordinator.go:276-324 | so is a dispatch |
| Group.RedeliverFollows | pkg/broker/coordinator.go:413-441 | so is the redelivery or dead-lettering of one expired offset |
| Group.RedeliverLeavesOthers | pkg/broker/coordinator.go:408-425 | redelivering one offset leaves every other expired lease as it is although the window may slide |
| Group.NextTurn | pkg/broker/coordinator.go:408-425 | the first expired offset of those left has its lease, and after its turn the others are still expired leases |
| Group.NextExpired | pkg/broker/coordinator.go:408-425 | every expired offset has its lease when its turn comes, in any state at all |
| Group.RedeliverAllFollows | pkg/broker/coordinator.go:408-442 | so does the loop, and it gets to every expired offset unless the batch is full before: none is passed over for want of its lease |
| Group.TakeNewFollows | pkg/broker/coordinator.go:444-474 | taking new messages is a run of first deliveries |
| Group.FetchFollows | pkg/broker/coordinator.go:387-477 | a fetch is a legal history, and sends and dead-letters exactly what that history says |
| Group.ExpireFollows | pkg/broker/coordinator.go:611-677 | so is a lease check |
| Batches.RedeliverAllExactly | pkg/broker/coordinator.go:408-442 | the redelivery loop in closed form: what becomes of each expired offset in turn is decided by its lease before the fetch, and only a full batch ends it early |
| Batches.TakeNewExactly | pkg/broker/coordinator.go:452-474 | the loop over new messages in closed form: as many as can be read without a gap and fit |
| Batches.FetchExactly | pkg/broker/coordinator.go:387-477 | a whole fetch in closed form, for any batch size and any unreadable records |
| Batches.FetchEnd | pkg/broker/coordinator.go:452-456 | a fetch never moves the end of the window past an unreadable record |
| Batches.FetchHandles | pkg/broker/coordinator.go:387-477 | only due offsets are served, and all of them unless the batch is full; given up rather than sent exactly at the redelivery limit |
| Batches.FetchInOrder | pkg/broker/coordinator.go:398-474 | due offsets are served in order, none is passed over for a later one |
| Batches.FirstDueIsHandled | pkg/broker/coordinator.go:408-474 | a fetch of at least one message serves the first due offset |
| Batches.CommittedIsHandled | pkg/broker/coordinator.go:387-477 | a fetch of at least one message sends or gives up the message at the committed offset if it is readable and not validly leased |
| Batches.FetchBatch | pkg/broker/coordinator.go:387-477 | a batch has at most the requested number of messages, some of the first expired leases, then a run of new ones without gaps, offsets strictly increasing, every record that of its offset; only a full batch stops among the expired leases or before the log ends or a record cannot be read |
| Batches.FetchStamps | pkg/broker/coordinator.go:432-465 | every lease of a fetch is of a readable record, its consumer's, from now for its timeout; a give-up copies exactly what can be read and written |
| Batches.CheckPairsFirstWithFirst | pkg/broker/coordinator.go:627-674 | a lease check pairs the least expired offset with the first waiting fetch, which is answered exactly if the lease is under the limit and readable |
| Batches.NothingStuck | pkg/broker/coordinator.go:387-477 | in any state and for any batch size, an unretired message without a valid lease is sent or given up, unless the batch is full or an unreadable record is in the way |
| Batches.RestartDelivers | pkg/broker/coordinator.go:184-191 | after a restart the first fetch delivers the messages from the saved offset on, as many as can be read and fit |
| Runs.OperationIsSound | pkg/broker/coordinator.go:247-677 | each operation is a legal history from state to state, sends and copies exactly what that history says, tells the truth about reads, appends and time, and never shortens the log |
| Runs.RunIsLegal | pkg/broker/coordinator.go:247-677 | every run is a legal history and has sent exactly the messages it delivers; the saved offset never passes the committed one; the dead-letter log grows by exactly the copies made |
| Runs.EveryEventIsTruthful | pkg/broker/coordinator.go:414-548 | every event of a run happened in one of its moves, at its time; a dead letter was copied exactly if its read and append worked there, a handoff sent exactly if its read did |
| Runs.UnreadableStops | pkg/broker/coordinator.go:452-456 | no run in which an offset stays unreadable delivers it or anything behind it, or commits past it |
| Runs.EveryStateIsAccountedFor | pkg/broker/coordinator.go:387-580 | window, retirement and delivery accounting and first-delivery order in every reachable state |
| Runs.EveryPairIsSafe | pkg/broker/coordinator.go:387-677 | visibility and finality for any two events of a run about one message |
| Runs.EveryMessageIsBounded | pkg/broker/coordinator.go:414-434 | the delivery bound for every message of a run, whether it respects the limit or not |
| Runs.LimitRespectedExactly | pkg/broker/coordinator.go:414-548 | the redelivery limit is respected in every state of a run if and only if no message that has reached it is nacked while a fetch is waiting; then it bounds the deliveries of every message |
| Runs.LimitPassedInARun | pkg/broker/coordinator.go:523-548 | a run of four operations that passes the limit |
| Runs.RetiredIsFinal | pkg/broker/coordinator.go:493-525 | in any state reached, an ack of a retired offset succeeds without effect and a nack finds no lease |
| Runs.RepliesAreExact | pkg/broker/coordinator.go:493-525 | an ack succeeds exactly for delivered messages, a nack exactly for delivered and unretired ones |
| Runs.FirstWaiterIsServed | pkg/broker/coordinator.go:299-309 | whatever a nack, dispatch or lease check sends goes to the first waiting fetch, for its timeout |
| Runs.SavedFollowsCommitted | pkg/broker/coordinator.go:564-580 | the saved offset moves only with the committed one and equals it after every move that could be saved |
| Runs.NothingLostAcrossRestarts | pkg/broker/coordinator.go:156-244 | over any number of processes, every offset below the committed one was retired by some process, and saved, committed and log end stay in order |
| Runs.FetchesReach | pkg/broker/coordinator.go:184-474 | the special case of a process that does nothing but fetch, with no lease running out between the fetches: they hand out the messages from the saved offset on in order, exactly as many as they ask for and can be read |
| Runs.UnretiredInPlace | pkg/broker/coordinator.go:156-196 | in that special case, a message none of the earlier processes retired comes in its place as soon as the fetches have asked for enough |
| Progress.NoStarvation | pkg/broker/coordinator.go:387-477 | in any run a message is passed over while due by at most as many fetches as the messages before it can be given out, `limit + 1` times each |
| Progress.DeliveredWithin | pkg/broker/coordinator.go:387-477 | in any run, whatever happens between the fetches, a message is delivered once more than that many fetches could have got to it |
| Progress.BoundIsReached | pkg/broker/coordinator.go:408-474 | for every limit and every distance there is a run with exactly that many such fetches in which it is not |
| Progress.UnretiredIsDeliveredAgain | pkg/broker/coordinator.go:156-477 | after any number of processes, a message none of them retired is handed out again by the next one, whatever else that does, within the same number of fetches |
| Effects.AckExactly | pkg/broker/coordinator.go:493-506 | an ack succeeds exactly below the end of the window, retires its offset and no other, and saves the new committed offset if it moved |
| Effects.NackExactly | pkg/broker/coordinator.go:523-559 | a nack succeeds exactly for unacked leases; with nobody waiting the lease runs out at that moment, otherwise the first waiting fetch gets the message and a lease of its own |
| Effects.DispatchExactly | pkg/broker/coordinator.go:283-321 | a fresh message goes to the first waiting fetch exactly if it is the next of the group, sent and leased for the time asked; otherwise nothing changes |
| Effects.RedeliverExactly | pkg/broker/coordinator.go:413-441 | one expired offset: retired at the limit, its key and value dead-lettered if that works, else leased and sent again if readable, else left alone |
| Effects.CheckExactly | pkg/broker/coordinator.go:611-677 | a lease check does nothing without a waiting fetch and an expired lease, and otherwise brings the first of each together |
| Effects.FetchLeaves | pkg/broker/coordinator.go:387-477 | the group after a fetch, offset by offset: what was sent is leased to the consumer for its timeout, what was given up is retired, all else is as before |
| Effects.QueueExactly | pkg/broker/coordinator.go:297-382 | who is waiting after each operation: new fetches join at the end, only the first is served |
| Effects.LogExactly | pkg/broker/coordinator.go:247-256 | only producing changes the log, by one entry at its end |
| Effects.ProducedGoesToWaiter | pkg/broker/coordinator.go:247-312 | a message produced while a fetch is waiting for it goes to that fetch |
| Effects.AckedForGood | pkg/broker/coordinator.go:493-506 | in any run, acking a delivered message retires it, and whatever follows does nothing with it but ack it again |
| Effects.NackedStaysDue | pkg/broker/coordinator.go:523-559 | in any run, a message nacked with nobody waiting is due from then on until something is done with it |
| Effects.DeadLettersAcrossRestarts | pkg/broker/coordinator.go:156-244 | over any number of processes the log only grows and the dead-letter topic holds exactly what they copied |
| ConsumerGroups.SortOffsets | pkg/broker/coordinator.go:398-406 | the exchange sort leaves the increasing listing of the same offsets |
| ConsumerGroups.ConsumerGroup.SlideWindow | pkg/broker/coordinator.go:564-580 | the deleting loop moves the window to the first lease not acked and saves if it moved |
| ConsumerGroups.ConsumerGroup.NextOffset | pkg/broker/coordinator.go:445-450 | the loop over the lease map finds the end of the window |
| ConsumerGroups.ConsumerGroup.ExpiredOffsets | pkg/broker/coordinator.go:391-406 | the expired offsets come out sorted whatever order the map is walked in |
| ConsumerGroups.ConsumerGroup.FirstExpired | pkg/broker/coordinator.go:627-637 | the loop over the lease map finds the least expired offset in any order |
| ConsumerGroups.ConsumerGroup.Ack | pkg/broker/coordinator.go:480-506 | the object does what the specified ack does and its history stays legal |
| ConsumerGroups.ConsumerGroup.Nack | pkg/broker/coordinator.go:509-560 | the same for nack |
| ConsumerGroups.ConsumerGroup.Dispatch | pkg/broker/coordinator.go:276-324 | the same for dispatch |
| ConsumerGroups.ConsumerGroup.RedeliverOne | pkg/broker/coordinator.go:413-441 | the same for one expired offset |
| ConsumerGroups.ConsumerGroup.RedeliverExpired | pkg/broker/coordinator.go:408-442 | the same for the redelivery loop |
| ConsumerGroups.ConsumerGroup.TakeFresh | pkg/broker/coordinator.go:452-474 | the same for the loop over new messages |
| ConsumerGroups.ConsumerGroup.FetchAvailable | pkg/broker/coordinator.go:387-477 | the same for a fetch |
| ConsumerGroups.ConsumerGroup.CheckExpired | pkg/broker/coordinator.go:611-677 | the same for a lease check |
| ConsumerGroups.ConsumerGroup.constructor | pkg/broker/coordinator.go:184-191 | a loaded group starts at the saved offset with nothing leased |
| EndToEnd.ConsumerSeesWhatWasAppended | pkg/broker/coordinator.go:427-472 | over any segments that stand for some entries, appended, rolled or reopened, the response to any fetch decodes to the batch, and each message is what reading the segments at its offset gives, the entry appended there |
| EndToEnd.RequestIsAnswered | pkg/broker/coordinator.go:327-345 | over any such segments, a fetch request decodes as sent, the batch is leased to the consumer it names, for its milliseconds or the default if it gives none, and the response decodes to entries of the log |
| EndToEnd.CutRecordStopsGroups | pkg/broker/coordinator.go:452-456 | after a stop inside the body of a record no group gets past its offset, as long as the files read as they do after the recovery |

## Left out

- Bytes.BigRoundTrip: stands for the library's fixed-width integer functions; their code is not part of this model.
- WalFiles.WAL.Append: does not cover a log whose next offset is not past the base of a non-empty active segment, which only files with rewritten offsets lead to, or the wrap of offsets at 2^64.
- WalFiles.Segment.VerifyOrRebuildIndex: requires that the scan ends, since on other logs the original loops for ever; files are below 2^62 + 2^34 bytes, so that positions do not overflow a signed 64-bit number.
- WalFiles.Open: segment sizes (`maxSegmentBytes`) from 1 to 2^62 only; with zero or less every append rolls and two segment objects share one file.
- Recovery.RecoverIdempotent: nothing is stated for a log whose scan cuts a header, which needs a size wrapped below 25 bytes; recovery reports an error there.
- Reopen.AppendAfterCutExactly: for an appended record under 2^32 bytes; a longer one does not survive recovery even by itself (`Recovery.IndexRecoveryExact`).
- Group.DispatchFollows: a dispatch leases its message without reading the record once more, as in the original; that the record was read when it was produced is not modelled, which only adds runs.
- Sorting.ListingUnique: the sort of the base offsets is library code; `Sorting.Sort` stands for it.
- An index file without its log file at the base offset of a new segment, file names, directory listing, fsync and I/O errors other than a file that ends too early.
- The CRC-32 algorithm: a parameter. JSON: the saved group state is an atomic number.
- Goroutines and mutexes: each operation is one atomic step. The self-locking of `dispatchMessage` (pkg/broker/coordinator.go:277 and 199) and the opposite lock orders of `Nack` and `checkExpiredLeases` are not modelled; including these operations only adds runs to the safety theorems. No liveness is claimed for long polling.
- Time: one reading of the clock for each operation; timeouts are not negative; the default lease timeout of a fetch that gives none is a parameter like any other.
- A group whose state file cannot be decoded, which starts again from offset 0.
- The loops over groups in `dispatchMessage` and `checkExpiredLeases` treat each group alike and independently: one group is modelled, with the queue of its own waiting fetches. A waiting fetch that times out leaves the queue by position, not identity; its channel, its maximum and its expiry field, which the queue never looks at, are left out.
- The dead-letter topic is the sequence of keys and values copied to it; its own groups are further instances of the model.
- Topic creation, topic lists, `flushLoop`, `Flush`, `Close` and the closed flag.
- Bodies of fixed layout (produce responses, errors, topic creation): easier instances of the same readers. Nack requests have the layout of ack requests.
- pkg/server, pkg/client, pkg/config and the commands: network loops, flags and constants.
