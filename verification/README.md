# Verified models of the Krabka audit spool, ACL evaluator and backup capture

This project models three parts of the Krabka broker in Dafny and proves what they promise, for any
number of records, losses, crashes, reopens, writers and entries and for every name. Where a machine
integer or a fixed width sets a limit, the limit is named under "Left out".

**The audit spool.** When the audit sink fails, chained audit records go to a local spool: an append-only
file of length-prefixed frames with three sidecars, the pending losses (generation, count), the replay
cursor and the replay poison. The model has two layers.

- `SpoolProtocol` is a step system in which every step makes at most one durable write, so a crash can
  fall between any two. It follows the code where that is finer than the repository's own bounded model:
  `persist` copies the loss state under its lock and writes the copy afterwards, so a loss can land
  between the two, and replay may run ahead of the sync cadence, as the code lets it. `SpoolSafety` proves
  its invariant and `SpoolTheorems` what follows for all runs.
- `SpoolStore.Directory`, `AuditSpool.PendingLosses` and `AuditSpool.Spool` are the same system on the
  bytes of the files. Each durable write is one method and one protocol step; the directory is valid
  when its bytes stand for a state some run reaches, so the theorems about runs hold of the bytes.
  `SpoolOpen` is recovery, `SpoolReplay` the drain to the sink, `SpoolReader` and `SpoolFiles` the
  readers and the file formats, `AuditCodec` the frame codec, `LossLedger` and `LossMarker` the loss
  arithmetic and the marker record. `SpoolScenarios` follows the classes from an empty directory.
- `Chain`, `ChainResume` and `Signing` are the hash chain the records carry, its recovery from the
  spool, and the payload a checkpoint signs.

**The ACL evaluator.** `AclIndex` is the snapshot's index, `AclAuthorizer` and `AclByType` the two
decisions, `AclTheorems` how they relate; `Acl` holds both the authorizer's reading of an entry and an
independent one. `Cidr`, `CidrParse` and `HostFormat` are the host side, and `AclPeers` joins the two.
`Utf8` and `Unicode` are the text facts names need.

**The backup capture.** `CaptureProtocol` is any number of writers publishing captures into one archive
with create-only puts and the manifest last. `Capture` is one writer and the readers, `CaptureNames` the
file names, ids and keys.

Where the code and its own words, or an easy reading of them, part ways, the model follows the code:

- The comment on `checkpoint_id` says a name that does not re-encode to itself is rejected. The integer
  parser takes a plus sign, so some are accepted; `CaptureNames.ReencodesIffNoPlus` says exactly which.
- The by-type query promises a grant on some resource pattern, which is not the same as some name being
  allowed. On the entries a broker stores, with `allow.everyone.if.no.acl.found` off, the two agree
  (`AclTheorems.ByTypeIffSomeName`). A DENY of the empty prefix would make the query say yes when no name
  is allowed (`AclTheorems.ByTypeIsRealIff`), but `CreateAcls` refuses an empty resource name
  (`crates/broker/src/handlers/create_acls/validate.rs`, lines 176-177). With the flag on the query can
  say no while names are allowed; `AclTheorems.UnderstatesIff` says exactly when.
- A cadence above one lets replay run ahead of the sync. A crash can then leave the cursor past the frames
  that survive, and the spool does not open again. `SpoolTheorems.CrashBarsOpenIff` says exactly when, for
  every run, `SpoolOpen.EveryCrashReopensIff` says it of the bytes, and `SpoolScenarios.ReplayAheadOfSync`
  gets there from an empty directory. Nothing is lost by it (`SpoolTheorems.AdriftHoldsNothingBack`), and
  the default cadence never gets there (`SpoolTheorems.DefaultCadenceNeverDrifts`).
- `open` reconciles the losses before it truncates. That order is not what keeps a marker from being
  dropped: a pending marker's frame is never behind the cursor (`SpoolTheorems.PendingMarkerIsUnread`).
  The poison check before the truncation does matter (`SpoolTheorems.TruncateBeforePoisonStrands`).
- Capture ids are meant to sort by time. Past 10^16 ms they do exactly when `CaptureNames.CapturesSortIff`
  says.

## Model

| member | source | states |
|---|---|---|
| Bytes.BigEndian32 | crates/audit/src/spool/codec.rs:141-145 | Four bytes are read most significant first, with the number written out |
| Bytes.BigEndian64 | crates/audit/src/spool.rs:282-293 | So are eight |
| Bytes.Spelled64 | crates/audit/src/spool.rs:295-297 | The bytes written for a number spell it, most significant first |
| AuditCodec.FrameRoundTrip | crates/audit/src/spool/codec.rs:89-152 | A frame decodes to its record and length, whatever bytes follow it |
| AuditCodec.FrameLayout | crates/audit/src/spool/codec.rs:89-109 | The frame byte for byte: its length, the tag, the value after its length, the header count, the headers |
| AuditCodec.HeadersLayout | crates/audit/src/spool/codec.rs:103-116 | Each header is its key after its length, then its value after its length, in order |
| AuditCodec.TagCodes | crates/audit/src/event.rs:88-111 | The six tags, and that reading a tag inverts writing it |
| AuditCodec.RecordOfIff | crates/audit/src/spool/codec.rs:122-139 | A body decodes to a record exactly when it starts with the record's own bytes, whatever follows; keys that are not UTF-8 never decode |
| AuditCodec.FrameOfIff | crates/audit/src/spool.rs:628-643 | A frame is found exactly where a length is followed by that many bytes that start with a record's own |
| AuditCodec.TornFrameStops | crates/audit/src/spool.rs:628-643 | A frame cut short at any byte is no frame |
| AuditCodec.ScanFramesThenTail | crates/audit/src/spool.rs:622-652 | A scan of whole frames and then anything that is no frame finds exactly those records and lengths |
| AuditCodec.ScanIsTheFrames | crates/audit/src/spool.rs:622-652 | On any bytes the scan finds the frames one after another, each where the last ends, and stops only where there is none |
| AuditCodec.WholeFramesIsMaximal | crates/audit/src/spool.rs:622-652 | The frames kept by a cut are those that end before it, and no more fit |
| AuditCodec.TornTailHealsExactly | crates/audit/src/spool.rs:412-430 | For every record list and every cut: the scan returns the whole frames before the cut with matching lengths and valid bytes, and healing the file scans the same |
| AuditCodec.HealingIsIdempotent | crates/audit/src/spool.rs:412-430 | On arbitrary bytes, cutting where the scan stopped changes nothing the scan finds |
| AuditCodec.AppendAfterHealing | crates/audit/src/spool.rs:554-581 | A frame appended to a healed file scans as one longer list |
| AuditCodec.EncodeHeaders | crates/audit/src/spool/codec.rs:98-116 | The header loop writes every header, or fails at the first length over `u32` |
| AuditCodec.EncodeFrame | crates/audit/src/spool/codec.rs:89-120 | Encoding fails exactly when a length does not fit `u32`; otherwise it is the frame that round-trips |
| AuditCodec.DecodeHeaders | crates/audit/src/spool/codec.rs:122-139 | The decode loop computes the recursive reading of the bytes, on any bytes |
| AuditCodec.DecodeRecord | crates/audit/src/spool/codec.rs:122-139 | Decoding any bytes gives the record they hold, or nothing |
| AuditCodec.Scan | crates/audit/src/spool.rs:622-652 | The scan loop computes the records, the lengths and their sum, on any bytes |
| LossLedger.AddGrows | crates/audit/src/spool.rs:67-74 | While no counter saturates, losses added call by call are their sum, and the generation moves on from an empty count and from no other |
| LossLedger.SettleConserves | crates/verified/src/audit/spool_append_decision.rs:98-116 | A settlement takes off exactly what its marker reports; a remainder moves to the next generation |
| LossLedger.SettleAlways | crates/verified/src/audit/spool_append_decision.rs:98-116 | On any input: another generation changes nothing, otherwise as much is taken off as there is, and a remainder moves on unless the generation is the last |
| LossLedger.FindIsUnique | crates/audit/src/spool.rs:229-233 | Among strictly newer markers, lookup by generation alone finds the one |
| LossMarker.MarkerRoundTrip | crates/audit/src/spool.rs:261-271 | A marker record reads back as the batch it was written for |
| LossMarker.MarkerText | crates/audit/src/sink.rs:36-46 | The marker byte for byte: the count under `records_lost`, the generation under `loss_generation`, and its `event_class` header |
| LossMarker.MarkerIff | crates/audit/src/spool.rs:261-271 | In the layout markers are written in, a record reads as a batch exactly when it is that batch's marker |
| SpoolFiles.HeaderRoundTrip | crates/audit/src/spool/codec.rs:49-81 | A file passes the header check exactly when it starts with the current header, and yields what follows |
| SpoolFiles.HeaderVerdict | crates/audit/src/spool/codec.rs:62-81 | On any bytes: no header, or a header of another version with the version its two bytes spell, or the rest |
| SpoolFiles.SidecarLayouts | crates/audit/src/spool.rs:275-306 | The three sidecars byte for byte: header, then generation and count, the cursor, or the cursor and a frame |
| SpoolFiles.LossFileIff | crates/audit/src/spool.rs:134-165 | A loss sidecar reads as a state exactly when it is the one written for it |
| SpoolFiles.OffsetFileIff | crates/audit/src/spool.rs:282-297 | A cursor file reads as a cursor exactly when it is the one written for it |
| SpoolFiles.PoisonFileVerdict | crates/audit/src/spool.rs:528-552 | A poison the spool wrote is cleared exactly when the cursor has passed it, and is an error otherwise |
| SpoolFiles.PoisonVerdictIff | crates/audit/src/spool.rs:528-552 | Any poison file is cleared exactly when the frame it names fills the rest of the file and the cursor has passed it |
| SpoolFiles.UnreadCountIff | crates/audit/src/spool.rs:654-690 | The cursor check succeeds with n exactly when n frames follow a boundary at the cursor, or the spool is empty |
| SpoolFiles.UnreadRecordCount | crates/audit/src/spool.rs:654-690 | The boundary loop computes that count |
| SpoolFiles.CursorCheckAfterCrash | crates/audit/src/spool.rs:654-690 | After a crash the cursor check fails exactly if frames survived but not all the cursor had passed, and otherwise counts the unread frames that survived |
| SpoolFiles.CutOfFile | crates/audit/src/spool.rs:412-430 | Cutting the file at any byte past its synced part keeps exactly the whole frames before the cut, the synced ones among them, and leaves a torn rest |
| SpoolReader.ScanSpool | crates/audit/src/spool.rs:622-652 | The scan of any file, header check included |
| SpoolReader.ReadFrom | crates/audit/src/spool.rs:736-745 | `read_all` of any file and cursor: an error, or the records after the cursor |
| SpoolReader.UnreadOfSpool | crates/audit/src/spool.rs:736-745 | On a file the spool wrote, that is exactly the frames from the cursor on |
| SpoolReader.ReadBatch | crates/audit/src/spool.rs:694-731 | The batch loop on any bytes: at most 64 whole frames, or an error |
| SpoolReader.BatchIsScanPrefix | crates/audit/src/spool.rs:692-731 | On any bytes the batch is the front of the full scan, and an error exactly when the scan stops short with bytes left over |
| SpoolReader.BatchRefinesScan | crates/audit/src/spool.rs:692-731 | The cursor reader returns the first min(64, unread) records of the full scan, with their lengths |
| SpoolSafety.LogStep | crates/audit/src/spool_model.rs:325-447 | Every step keeps the log invariant: where the cursor is, which poison may exist, what the sink holds, how many frames are unsynced |
| SpoolSafety.LossStep | crates/audit/src/spool_model.rs:325-447 | Every step that saturates no counter keeps the loss accounting against the durable markers |
| SpoolSafety.PassedStep | crates/audit/src/spool_model.rs:325-447 | Every such step keeps the pending marker ahead of the cursor, and volatile markers ahead of the sink |
| SpoolSafety.CostStep | crates/audit/src/spool.rs:67-74 | Every step keeps the counters below what the losses and empty additions so far can have made of them |
| SpoolSafety.InvOfRun | crates/audit/src/spool_model.rs:449-496 | The invariant holds after every run of any length |
| SpoolTheorems.AtMostOnceInOrder | crates/audit/src/spool_model.rs:451-464 | The sink holds a prefix of the entries, in order: those the cursor has passed and at most the one the poison names. Passed and unread entries are all there are, except in a spool that will not open, where the sink holds every admitted one |
| SpoolTheorems.HistoryOnlyGrows | crates/audit/src/spool_model.rs:451-464 | Admissions, deliveries and the committed count only grow, across crashes, reopens and truncations |
| SpoolTheorems.CrashBarsOpenIff | crates/audit/src/spool.rs:366-371 | For every run and crash: the next `open` fails exactly if frames survived but not all the cursor had passed, or the crash fell within a delivery |
| SpoolTheorems.AdriftHoldsNothingBack | crates/audit/src/spool.rs:366-371 | When a crash leaves the cursor past the frames, the sink has taken every admitted entry |
| SpoolTheorems.DefaultCadenceNeverDrifts | crates/audit/src/spool.rs:362-364 | With the default cadence the sink only takes durable frames, and no crash leaves the cursor past the frames |
| SpoolTheorems.LossesAccounted | crates/audit/src/spool_model.rs:476-486 | In every run that saturates no counter, every loss is settled against a durable marker, pending in the sidecar, added since its last write, or was only in memory at a crash |
| SpoolTheorems.MarkerGenerationsIncrease | crates/audit/src/spool_model.rs:465-475 | Durable markers carry strictly increasing generations, none above the sidecar's, so lookup by generation is unambiguous |
| SpoolTheorems.MarkersSettledOnce | crates/audit/src/spool_model.rs:487-496 | Settled losses never exceed what durable markers report, and equal it when the writer is idle |
| SpoolTheorems.CommitMeetsItsGeneration | crates/audit/src/spool.rs:190-198 | `commit` never meets another generation, and the count always covers the batch |
| SpoolTheorems.AddIsExactIffBelowSaturation | crates/audit/src/spool.rs:67-74 | Counting is exact exactly until the count saturates |
| SpoolTheorems.FewLossesNeverSaturate | crates/audit/src/spool.rs:67-74 | No counter saturates before 2^64 - 1 losses and empty additions |
| SpoolTheorems.PendingMarkerIsUnread | crates/audit/src/spool.rs:433-437 | A marker is pending only while its frame is unread, so no truncation, in `open` or at run time, drops a pending one |
| SpoolTheorems.BarredIffRefused | crates/audit/src/spool.rs:107-117 | `open` gives up exactly when the cursor is past the frames or a poison sits at it |
| SpoolTheorems.RecoveryIsTotal | crates/audit/src/spool.rs:380-442 | From every reachable closed state, saturated or not, the writes of `open` are possible in their order and lead to the recovered state, unless the cursor is past the frames or a poison sits at it |
| SpoolTheorems.RecoveryIsExact | crates/audit/src/spool.rs:380-442 | The recovered unread frames are the admitted entries not yet committed, and the sink holds exactly the committed ones |
| SpoolTheorems.RecoveredLosses | crates/audit/src/spool.rs:224-239 | The recovered losses are the sidecar's less what the durable marker beside them reports, and all are accounted for |
| SpoolTheorems.RecoveryIsRestartable | crates/audit/src/spool.rs:380-442 | Recovery cut short after any of its writes starts over to the same result |
| SpoolTheorems.SecondReopenChangesNothing | crates/audit/src/spool_model.rs:525-565 | A crash right after `open` recovers the very same spool and losses |
| SpoolTheorems.TruncateBeforePoisonStrands | crates/audit/src/spool.rs:433-437 | Truncating before the poison check would strand the spool exactly when a stale poison is left, though the sink holds everything |
| SpoolTheorems.StrandingIsReachable | crates/audit/src/spool.rs:433-437 | A run with any one entry gets there: delivered, cursor committed, and a crash before the poison is removed |
| SpoolTheorems.SupersededSettlementSettlesTwice | crates/audit/src/spool_model.rs:589-628 | A settlement that kept the remainder in its generation would settle it against the same marker on reopen |
| SpoolStore.ReachablePromises | crates/audit/src/spool_model.rs:449-496 | The promises about runs hold of every state a directory is in |
| SpoolStore.Directory.constructor | crates/audit/src/spool.rs:385-393 | An empty directory stands for the initial state |
| SpoolStore.Directory.PutLosses | crates/audit/src/spool.rs:275-280 | Replacing the loss sidecar is one protocol step and keeps the directory valid |
| SpoolStore.Directory.PutOffset | crates/audit/src/spool.rs:295-297 | Replacing the cursor is one protocol step and keeps the directory valid |
| SpoolStore.Directory.PutPoison | crates/audit/src/spool.rs:490-495 | Writing the poison is one protocol step and keeps the directory valid |
| SpoolStore.Directory.RemovePoison | crates/audit/src/spool.rs:519-526 | Removing the poison is one protocol step and keeps the directory valid |
| SpoolStore.Directory.WriteFrame | crates/audit/src/spool.rs:568-571 | Writing a frame is one protocol step and keeps the directory valid |
| SpoolStore.Directory.SyncFile | crates/audit/src/spool.rs:589-593 | Syncing makes every frame durable |
| SpoolStore.Directory.CutToHeader | crates/audit/src/spool.rs:752-761 | Truncating leaves the header alone, durably |
| SpoolStore.Directory.Crash | crates/audit/src/spool_model.rs:12-18 | A crash that keeps the synced bytes and any part of the rest, cut at any byte, is a crash of the protocol that keeps the whole frames before the cut |
| AuditSpool.PendingLosses.Add | crates/audit/src/spool.rs:167-170 | A loss of any size is added to memory and to nothing else |
| AuditSpool.PendingLosses.AddAll | crates/audit/src/spool.rs:167-170 | Losses arriving one call after another |
| AuditSpool.PendingLosses.Snapshot | crates/audit/src/spool.rs:183-186 | The pending losses, if there are any |
| AuditSpool.PendingLosses.Persist | crates/audit/src/spool.rs:200-205 | The sidecar holds the state as it was copied, whatever arrives before the write |
| AuditSpool.PendingLosses.PersistSnapshot | crates/audit/src/spool.rs:207-214 | The snapshot is covered by the sidecar before its marker is written, whatever arrives before the copy and before the write |
| AuditSpool.PendingLosses.Commit | crates/audit/src/spool.rs:188-198 | The batch is settled in memory and then in the sidecar, and credited once, whatever arrives in between |
| AuditSpool.Spool.AppendInner | crates/audit/src/spool.rs:554-581 | Accepted exactly when the frame fits the cap; otherwise nothing changes; the fields keep counting what the directory holds |
| AuditSpool.Spool.Append | crates/audit/src/spool.rs:478-480 | The record joins the unread ones, and with the default cadence is durable on return |
| AuditSpool.Spool.Sync | crates/audit/src/spool.rs:589-593 | Every frame is durable and none counts as unsynced |
| AuditSpool.Spool.AppendLossMarker | crates/audit/src/spool.rs:483-488 | A marker is refused when full, and otherwise appended and durable, whatever arrives before the sync |
| AuditSpool.Spool.PersistWith | crates/audit/src/spool.rs:207-218 | The whole marker flow with losses landing between any two of its steps: the marker declares exactly the snapshot, byte for byte, and settles exactly it; the rest waits, the sidecar holds what was copied, and a failure leaves every loss pending and the snapshot persisted |
| AuditSpool.Spool.BeginReplay | crates/audit/src/spool.rs:490-495 | The poison names the cursor and the record about to be sent |
| AuditSpool.Spool.CommitReplayFrame | crates/audit/src/spool.rs:497-510 | The cursor passes the frame, then the poison goes; the cursor cannot overflow |
| AuditSpool.Spool.AbortReplay | crates/audit/src/spool.rs:517-526 | The poison goes and nothing else changes |
| AuditSpool.Spool.Truncate | crates/audit/src/spool.rs:752-769 | A drained spool is emptied, file first and cursor second |
| AuditSpool.Spool.ReadAll | crates/audit/src/spool.rs:736-745 | The unread records, in order |
| AuditSpool.Spool.ReadReplayBatch | crates/audit/src/spool.rs:694-731 | The first min(64, count) unread records with their frame lengths |
| SpoolReplay.ReplayRecord | crates/audit/src/log/spool_mode.rs:101-120 | What each of the sink's three answers does to the cursor, the poison and the deliveries |
| SpoolReplay.ReplayBatch | crates/audit/src/log/spool_mode.rs:101-120 | A batch stops at the first record the sink does not accept |
| SpoolReplay.Drain | crates/audit/src/log/spool_mode.rs:90-121 | Batch after batch delivers exactly the accepted prefix of the unread records, in order, and ends |
| SpoolReplay.TryReplay | crates/audit/src/log/spool_mode.rs:79-132 | From any idle spool, synced or not: a drained spool is truncated and left; a refusal keeps the rest; an uncertain write leaves its poison at the cursor and is an error |
| SpoolReplay.EverythingIsDelivered | crates/audit/src/log/spool_mode.rs:90-121 | A sink that accepts everything gets every unread entry, in order |
| SpoolOpen.OpenLosses | crates/audit/src/spool.rs:134-165 | Any loss sidecar is read or refused; a missing one is created empty |
| SpoolOpen.OpenOffset | crates/audit/src/spool.rs:282-293 | Any cursor file is read or refused; a missing one is created at zero |
| SpoolOpen.OpenSpoolFile | crates/audit/src/spool.rs:390-430 | Any spool file is refused, or scanned and cut where the scan stopped; frames a run wrote all survive |
| SpoolOpen.ReconcilePoison | crates/audit/src/spool.rs:528-552 | Any poison file is cleared or is an error; on a run's directory it is an error exactly at the cursor |
| SpoolOpen.FindMarker | crates/audit/src/spool.rs:229-233 | The search finds the first marker of the generation |
| SpoolOpen.ReconcileLosses | crates/audit/src/spool.rs:224-239 | The losses are settled against the durable marker beside them, and nothing is left pending beside one |
| SpoolOpen.TruncateDrained | crates/audit/src/spool.rs:435-437 | A drained file is truncated and its cursor reset |
| SpoolOpen.VerdictOfCut | crates/audit/src/spool.rs:380-442 | `open` on a spool file cut at any byte, with the cursor after any of its frames and no poison: it fails exactly if whole frames are left, but fewer than the cursor has passed |
| SpoolOpen.EveryCrashReopensIff | crates/audit/src/spool.rs:366-371 | `open` accepts what every crash leaves exactly when the cursor is within the synced frames, or has passed at most the first of none |
| SpoolOpen.CursorPastTheFrames | crates/audit/src/spool.rs:654-690 | For any two records: the first frame alone with the cursor after both is an I/O error |
| SpoolOpen.CheckFiles | crates/audit/src/spool.rs:386-433 | On any files: the checks of `open` in their order, with the first failure's error, and what they read when all pass |
| SpoolOpen.OpenSpool | crates/audit/src/spool.rs:380-442 | On any files: succeeds exactly when every check passes, with the fields and the files it then leaves. On a run's directory: fails exactly when the cursor is past the frames or a poison sits at it, and otherwise leaves precisely the recovered state |
| SpoolOpen.CrashAndReopen | crates/audit/src/spool.rs:380-442 | After a crash at any byte, reopening fails exactly when frames survive but not all the cursor had passed, or a record was in doubt; otherwise the unread records are precisely those whose whole frame is before the cut |
| SpoolScenarios.DeliverOne | crates/audit/src/log/spool_mode.rs:79-132 | From an empty directory: a spooled record is delivered exactly once and the spool is empty again |
| SpoolScenarios.DoubtStops | crates/audit/src/spool.rs:1226-1243 | A record the sink may have taken stops the spool at the next open |
| SpoolScenarios.DeclareLoss | crates/audit/src/spool.rs:207-218 | A loss is settled by its marker, or still pending when the marker does not fit |
| SpoolScenarios.ReplayAheadOfSync | crates/audit/src/spool.rs:366-371 | From an empty directory with a cadence of four: three records appended, two taken, and a crash that keeps one frame make the next `open` fail |
| Chain.ResumeIsSeamless | crates/audit/src/chain.rs:45-64 | Resuming at any split gives the links and head of one unbroken chain |
| Chain.EqualHeadsEqualHistory | crates/audit/src/chain.rs:14-22 | Without a collision among the hashed messages, equal heads mean equal records, whatever the lengths |
| Chain.MessageLayout | crates/audit/src/chain.rs:14-22 | What is hashed: the previous head, the sequence number most significant byte first, the value |
| Chain.ChainState.Extend | crates/audit/src/chain.rs:55-64 | The link is the position before the record, the new head is the hash of the old head, the number and the value, and the state stays that of one chain |
| Chain.ChainState.Resume | crates/audit/src/chain.rs:45-47 | A resumed chain starts at the given position |
| ChainResume.StampRoundTrip | crates/audit/src/sink.rs:44-57 | The stamped headers read back as the link they stamp |
| ChainResume.StampText | crates/audit/src/sink.rs:52-57 | The stamp byte for byte: the number in decimal, the head in lower-case hex |
| ChainResume.LinkIff | crates/audit/src/spool/resume.rs:85-101 | The link a record carries: its first `seq` header as a decimal `u64` and its first `prev_hash` header as 64 hex digits |
| ChainResume.ResumesIffUnbroken | crates/audit/src/spool/resume.rs:53-83 | The walk accepts exactly the records whose links follow one another, number by number and hash by hash, and then stands after the last |
| ChainResume.ResumeFromRecords | crates/audit/src/spool/resume.rs:53-83 | The walk computes that position, and is an error on any break |
| ChainResume.ResumeFindsTheWriter | crates/audit/src/spool/resume.rs:53-83 | Whatever the writer spooled, the walk finds the position the writer stood at |
| ChainResume.ResumeFromAnyStretch | crates/audit/src/spool/resume.rs:1-6 | From any stretch left by drains and crashes it continues the chain after the last record left |
| Signing.CheckpointSigningBytes | crates/audit/src/signing.rs:106-127 | The domain, the key id's length in two bytes, saturating, and the key id stand at their places, and all four fields can be read back, so two payloads never sign the same bytes |
| Signing.SignedNumbers | crates/audit/src/signing.rs:106-127 | The sequence number, the head and the time at their places, most significant byte first, the time in two's complement |
| Signing.PayloadIsCanonical | crates/audit/src/checkpoint.rs:64-69 | A payload has one byte form only, so bytes recomputed from the fields are those that were signed |
| Signing.PayloadPinsHistory | crates/audit/src/signing.rs:106-127 | One signed byte string pins the key, the time and every one of the `seq_high + 1` records |
| Acl.MatchersAgree | crates/authz/src/precedence.rs:72-123 | Given one reading of hosts, the authorizer's matchers and the oracle's agree on every entry and request |
| Acl.OperationAgrees | crates/verified/src/authz/acl_decision.rs:35-95 | The operation match is equality, `All`, or one of the five arrows, which only an ALLOW gains |
| Acl.DecisionMeans | crates/verified/src/authz/acl_decision.rs:116-145 | Which facts each decision stands for, in the order super user, DENY, ALLOW, default |
| AclIndex.NewCache | crates/authz/src/cache.rs:61-85 | The index lists exactly the positions of each type, literal name and prefix, and the prefix lengths, distinct and ascending |
| AclIndex.Sort | crates/authz/src/cache.rs:77-77 | Sorted, and a permutation |
| AclIndex.Dedup | crates/authz/src/cache.rs:78-78 | Strictly ascending, with the same lengths |
| AclIndex.PrefixedPositions | crates/authz/src/cache.rs:42-53 | Probing each stored length finds every prefix of the name once, and skips none by skipping split characters |
| AclIndex.MatchingPositions | crates/authz/src/cache.rs:110-128 | A lookup lists exactly the positions that match the resource, each once, for every UTF-8 name |
| AclIndex.LookupIsScan | crates/authz/src/cache.rs:299-315 | Its entries are those of a full scan as a multiset, duplicates included |
| AclAuthorizer.Authorize | crates/authz/src/simple.rs:95-148 | The early-exit loop over the index decides as the deny-wins oracle over the raw list |
| AclAuthorizer.OrderDoesNotMatter | crates/authz/src/precedence.rs:41-70 | The decision depends only on which entries there are |
| AclAuthorizer.DefaultOnlyWhenUncovered | crates/authz/src/simple.rs:9-14 | The no-ACL default allows exactly when no entry at all covers the resource |
| AclByType.CollectDenied | crates/authz/src/simple/coverage.rs:15-31 | The collected names are exactly the applicable DENYs' |
| AclByType.ApplicableEntries | crates/authz/src/cache.rs:130-137 | The filtered listing holds exactly the type's entries that concern the subject |
| AclByType.AuthorizeByType | crates/authz/src/simple.rs:171-230 | The query allows exactly for a super user, an allowed probe, or an ALLOW no DENY dominates |
| AclTheorems.DenyCovers | crates/authz/src/simple/coverage.rs:33-53 | A DENY covers its own name, every name, or its extensions, and nothing else |
| AclTheorems.AllowedNameImpliesByType | crates/authz/src/simple.rs:150-230 | With the default off, any allowed name makes the query allow |
| AclTheorems.UncoveredLiteralIsReal | crates/authz/src/simple.rs:155-155 | A literal ALLOW the query counts names a resource that is really allowed |
| AclTheorems.WildcardBesideEmptyPrefix | crates/authz/src/simple/coverage.rs:49-53 | A wildcard ALLOW beside a DENY of the empty prefix, a name `CreateAcls` refuses to store: the query would allow and no name would be |
| AclTheorems.ByTypeIsRealIff | crates/authz/src/simple.rs:150-230 | The query's yes is backed by an allowed name exactly for a super user or when no applicable DENY has the empty prefix, with the no-ACL default on or off |
| AclTheorems.ByTypeIffSomeName | crates/broker/src/handlers/create_acls/validate.rs:176-178 | On entries without empty names and with the default off, the query says yes exactly when some name is allowed |
| AclTheorems.DefaultActsThroughTheProbe | crates/authz/src/simple.rs:184-200 | The no-ACL default adds an answer exactly when no entry covers the probed name |
| AclTheorems.UnderstatesIff | crates/authz/src/simple.rs:184-200 | With the default on, some name is allowed and the query says no exactly when it would say no with the default off, some entry covers the probed name and none covers every name |
| AclTheorems.ProbeDeniedUnderstates | crates/authz/src/simple.rs:184-200 | A DENY of the probed name alone makes the query say no while every other name is allowed |
| AclPeers.MappedPeerDecidesAlike | crates/authz/src/simple.rs:105-116 | An IPv4-mapped peer gets the decision of its IPv4 address, whatever the entries |
| AclPeers.RangesOnlyAdd | crates/authz/src/simple/matching.rs:55-57 | Reading range hosts only adds matches |
| Unicode.FreshChar | crates/authz/src/simple/coverage.rs:37-47 | Fewer names than there are characters leave some one-character extension unnamed |
| Unicode.TextIff | crates/audit/src/spool/codec.rs:130-133 | The byte strings that count as UTF-8 are exactly the encodings of sequences of scalar values |
| Cidr.AndMask | crates/authz/src/cidr.rs:150-169 | Masking rounds down to a multiple of the block size |
| Cidr.ContainsIff | crates/authz/src/cidr.rs:61-74 | Membership is agreement after division by the block size, within one family, and never 0.0.0.0 |
| Cidr.ContainsInterval | crates/authz/src/cidr.rs:61-74 | A range is an interval starting at a multiple of its size |
| Cidr.NestedOrDisjoint | crates/authz/src/cidr.rs:61-74 | Two ranges that share an address are nested |
| CidrParse.ParseV4Text | crates/authz/src/cidr.rs:77-103 | The parser that fills a byte array computes the grammar's reading, with its errors in order |
| CidrParse.ParseV4Iff | crates/authz/src/cidr.rs:77-103 | Text of the right shape is accepted exactly when the octets are at most 255 and the prefix at most 32, with the number its octets spell, most significant first |
| CidrParse.ParseV4Errors | crates/authz/src/cidr.rs:90-103 | The range errors in their order: the first octet over 255, then a prefix over 32, each with its value |
| CidrParse.ParsesIff | crates/authz/src/cidr.rs:77-103 | Exactly text of four octets of one to three digits and a prefix of one or two is parsed; anything else is no parse |
| CidrParse.PrintRoundTrip | crates/authz/src/cidr.rs:77-103 | Parsing inverts the dotted-quad printer |
| CidrParse.MatchesHost | crates/authz/src/simple/matching.rs:47-58 | A stored host matches as the wildcard, the rendered address, or a range that contains the peer |
| CidrParse.RangeHost | crates/authz/src/simple/matching.rs:55-57 | A stored `a.b.c.d/n` names exactly the peers other than 0.0.0.0 that agree with a.b.c.d in the first n bits, IPv4 or mapped; with an octet or prefix out of range it names none |
| CidrParse.AnyHost | crates/authz/src/simple/matching.rs:48-54 | The host `*` names every peer |
| CidrParse.MappedPeerIsV4 | crates/authz/src/simple/matching.rs:47-58 | An IPv4-mapped peer is treated as its IPv4 address by every stored host |
| CidrParse.LiteralHostIsOnePeer | crates/authz/src/simple/matching.rs:34-38 | A stored address matches one peer only |
| HostFormat.QuadText | crates/authz/src/host_format.rs:45-47 | An IPv4 address is written as its octets, most significant first, in decimal with dots |
| HostFormat.MappedText | crates/authz/src/host_format.rs:45-47 | `::ffff:a.b.c.d` is written as the IPv4 address |
| HostFormat.GroupsText | crates/authz/src/host_format.rs:48-56 | Any other IPv6 address is written as its eight groups in lower-case hex with colons, none left out |
| HostFormat.RenderingInjective | crates/authz/src/host_format.rs:45-58 | Two peers render alike exactly when they are the same address once unwrapped |
| HostFormat.PrefixMatcher.WriteStr | crates/authz/src/host_format.rs:60-71 | A write succeeds exactly while what was written is a prefix of the text |
| HostFormat.StreamIs | crates/authz/src/host_format.rs:34-40 | However the rendering is split into writes, streaming decides equality |
| HostFormat.WriteHost | crates/authz/src/host_format.rs:45-58 | The writer's own loop streams the whole rendering, or fails on text that differs |
| HostFormat.HostAddressIs | crates/authz/src/host_format.rs:37-40 | The streaming comparison equals building the text and comparing |
| CaptureNames.CheckpointRoundTrip | crates/backup-cli/src/capture.rs:56-74 | A name the controller wrote decodes to its id |
| CaptureNames.CheckpointText | crates/raft/src/kraft/controller/checkpoint.rs:62-64 | The name byte for byte: twenty digits, a dash, ten digits, the suffix |
| CaptureNames.CheckpointIff | crates/backup-cli/src/capture.rs:64-74 | A name decodes to an id exactly when it has that shape and both fields parse to the id's |
| CaptureNames.NamesSortAsIds | crates/raft/src/kraft/controller/checkpoint.rs:62-64 | Names sort as (end offset, epoch) |
| CaptureNames.AcceptedHasFields | crates/backup-cli/src/capture.rs:64-74 | Whatever is accepted has two fields of the right widths |
| CaptureNames.ReencodesIffNoPlus | crates/backup-cli/src/capture.rs:59-62 | An accepted name re-encodes to itself exactly when neither field starts with a plus sign |
| CaptureNames.SignedNameIsAccepted | crates/backup-cli/src/capture.rs:64-74 | Every offset of up to 19 digits has a signed name that is accepted and does not re-encode |
| CaptureNames.NewestCheckpoint | crates/backup-cli/src/capture.rs:81-87 | The newest checkpoint, the last of equals, or none if no name is one |
| CaptureNames.NewestMetadataCheckpoint | crates/backup-cli/src/capture.rs:138-164 | The newest over both directories, the controller's at an equal id |
| CaptureNames.CapturesSortIff | crates/backup-cli/src/capture.rs:166-171 | Two capture ids sort by time, whatever the suffixes, exactly when the earlier clock is at most the leading digits of the later one |
| CaptureNames.CapturesSortByTime | crates/backup-cli/src/capture.rs:166-171 | So they always do for clocks below 10^16 ms |
| CaptureNames.ClockPastTheWidth | crates/backup-cli/src/capture.rs:166-171 | And at 10^16 ms the later id sorts first |
| CaptureNames.LegacyIdSortsFirst | crates/backup-cli/src/capture.rs:169-169 | A timestamp-only id sorts before every suffixed id of its millisecond |
| CaptureNames.CaptureIdText | crates/backup-cli/src/capture.rs:171-171 | An id byte for byte: the clock in at least sixteen digits, a dash, the suffix |
| CaptureNames.ListingFindsTheId | crates/backup-cli/src/archive.rs:121-134 | The listing recovers the id of every capture object |
| CaptureNames.ListedIff | crates/backup-cli/src/archive.rs:121-134 | A key lists as an id exactly when it lies under the root in that non-empty directory |
| CaptureNames.KeysAreDistinct | crates/backup-cli/src/capture.rs:173-177 | Keys of different captures or artifacts differ |
| CaptureNames.KeyText | crates/backup-cli/src/capture.rs:173-177 | A key byte for byte |
| CaptureProtocol.InvOfRun | crates/backup-cli/src/run.rs:185-204 | Every interleaving keeps the archive sound and every writer's recorded artifacts stored |
| CaptureProtocol.ManifestIsTheCommitRecord | crates/backup-cli/src/run.rs:346-367 | A stored manifest is readable, is its capture's, and all its artifacts are stored with the recorded size and digest, within the reader's limits |
| CaptureProtocol.CapturesAreImmutable | crates/backup-cli/src/archive.rs:58-70 | Nothing stored is ever removed or replaced |
| CaptureProtocol.OneWriterCommits | crates/backup-cli/src/archive.rs:58-70 | Of writers with the same id at most one commits |
| CaptureProtocol.LoneWriterCommits | crates/backup-cli/src/run.rs:185-204 | Alone and acknowledged, every job within its limits commits |
| CaptureProtocol.Limits | crates/backup-cli/src/run.rs:43-55 | The size limit of every artifact name, in bytes |
| Capture.Archive.PutNew | crates/backup-cli/src/archive.rs:58-70 | A put succeeds only on a free key, and never replaces |
| Capture.Archive.UploadArtifact | crates/backup-cli/src/run.rs:724-741 | An uploaded artifact is stored as recorded; one over the limit is refused before anything is stored |
| Capture.RunCapture | crates/backup-cli/src/run.rs:185-204 | Success means a complete capture, whatever others write meanwhile; nothing stored before is touched; a failed capture leaves no manifest unless its put went unanswered |
| Capture.VerifyCapture | crates/backup-cli/src/run.rs:785-823 | Passes exactly when the manifest can be read and every artifact is stored with the recorded size and digest within its limit; otherwise the first read that fails is the error, or it is an integrity error |
| Capture.VerifiesIff | crates/backup-cli/src/manifest.rs:137-153 | One artifact verifies exactly when it is stored as recorded: altered bytes of the same length are found |
| Capture.ManifestIff | crates/backup-cli/src/run.rs:1083-1087 | A manifest reads exactly when its object is there, within eight mebibytes, and decodes |
| Capture.FetchFails | crates/backup-cli/src/run.rs:797-802 | A read fails exactly when the object is absent, or over its limit |
| Capture.CommittedVerifies | crates/backup-cli/src/run.rs:785-823 | Whatever is committed when verification starts passes it, however the archive grows meanwhile |
| Capture.ResolveLatest | crates/backup-cli/src/run.rs:1057-1074 | The loop returns the first listed id whose manifest is not absent when read, that read's error, or no capture if all are absent |
| Capture.LatestIsNewest | crates/backup-cli/src/run.rs:1057-1074 | `latest` is no older than anything committed in the store that was listed, and fails only if nothing was |
| Capture.LatestIsCommitted | crates/backup-cli/src/run.rs:1057-1074 | In sound stores no manifest read fails for any reason but absence, so whatever `latest` stops at is committed |
| Capture.RunsAreHistories | crates/backup-cli/src/run.rs:1057-1081 | Whatever the writers of a run do and whenever the reads come, a reader sees a growing history of sound stores |
| Capture.LatestOfRun | crates/backup-cli/src/run.rs:1057-1074 | Resolved beside any run, `latest` is a committed capture no older than any committed when it was listed, and fails only if there was none |
| Capture.CapturesVerify | crates/backup-cli/src/run.rs:785-823 | Every capture of every run passes verification from its commit on |

## Left out

- Real file I/O: files are byte strings, `fsync` and rename are explicit durable state, and a crash is one after which whatever bytes survive are on stable storage.
- Going on with a spool after an I/O error: `rollback_append`, a failed cursor reset, and a loss sidecar write that is only warned about.
- Explicit recovery of a poisoned spool: a stopped spool has no way back in the model.
- AuditSpool.Spool.Append: takes no record that reads as a loss marker, which a writer with a spool only appends inside `persist_with`.
- AuditSpool.Spool.Truncate: takes only a drained spool, as both callers do.
- SpoolTheorems.LossesAccounted: stated for runs that saturate no counter; `SpoolTheorems.AddIsExactIffBelowSaturation` says why, and `SpoolTheorems.FewLossesNeverSaturate` that 2^64 - 1 losses come first.
- SpoolTheorems.MarkerGenerationsIncrease: for runs that saturate no counter.
- SpoolTheorems.MarkersSettledOnce: for runs that saturate no counter.
- SpoolTheorems.PendingMarkerIsUnread: for runs that saturate no counter.
- SpoolTheorems.RecoveredLosses: for runs that saturate no counter, the recovery included.
- SpoolTheorems.SecondReopenChangesNothing: for runs that saturate no counter, the recovery included.
- SpoolTheorems.RecoveryIsRestartable: for the reconcile and truncation steps stated while no counter is saturated; with a generation stuck at its maximum each restart would settle the same marker again.
- LossMarker.MarkerRoundTrip: a marker is read in the layout it is written in; other JSON spellings of the same fields are not modelled.
- LossMarker.MarkerIff: the same; the code would also read other JSON spellings, which nothing here writes.
- Chain.ChainState.Extend: takes a sequence number with a successor; at the last `u64` the code panics or wraps with the build profile.
- Chain.EqualHeadsEqualHistory: SHA-256 is a parameter, assumed free of collisions on the messages at hand.
- ChainResume.ResumeFindsTheWriter: stated while sequence numbers are left below 2^64 - 1.
- Ed25519, the audit writer's event loop, timers, channel and statistics, OCSF serialization, and the segment walk of the offline verifier.
- AclTheorems.ByTypeIsRealIff: fewer DENYs apply than there are Unicode scalar values (1,112,064); that many could deny every first character one by one.
- AclTheorems.ByTypeIffSomeName: the same bound.
- AclTheorems.UnderstatesIff: the same bound, on the entries.
- Acl.MatchersAgree: the host test is one parameter of both readings; the test oracle's own, which compares the standard library's rendering, is not modelled.
- CidrParse.MatchesHost: the IPv6 range parser is a parameter, as its address parser is the standard library's.
- Broker metadata images as an ACL source, and authorizers other than the simple one.
- Capture.RunCapture: JSON and SHA-256 are parameters; reading the node's files, refusing a format-time checkpoint, fetching from the cluster, sealing, and the report are not modelled.
- Overwriting `put`, deletion, and the operator's key prefix in the archive.
- Restoring group offsets, the barrier, guard and restore tools, the broker, consensus, storage and the client libraries.
