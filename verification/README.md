# A verified model of open-wal

open-wal is a single-writer, segmented, append-only write-ahead log. This project models its engine
byte by byte in Dafny and proves what it promises: the record codec and the two-phase scanner,
segment headers and names, the recovery of one segment with its tail classifier, multi-segment open,
the writer (`append`, `commit`, `roll`, `checkpoint`), crashes at any point followed by reopens, and
the streaming reader with its binary-search seek. `dafny verify dfyconfig.toml` checks everything.

## How the model is built

There are two layers. The lower layer is functions over byte strings and directories: what a scan
finds at an offset (`Segment.ScanAt`), the dense run of a file (`Recovery.DenseRun`), the verdict on
what ends it (`Recovery.Classify`), the outcome of opening a directory (`Open.OpenDir`), and the
writer as a state machine (`Writer.Append`, `Writer.Commit`, `Writer.Checkpoint`). The upper layer is
imperative, in the shape of the Rust code: loops over offsets, files zeroed in place, and the objects
`WalHandle.Device`, `WalHandle.Wal` and `Reader.LogReader` with mutable fields. Every method there is
proved to compute exactly the corresponding function, on every handle that any successful open returns
(`Coherent`); on a log in the writer's own shape it also keeps the writer's invariant (`Valid`). The
theorems about whole runs are proved of the functions.

| file | contents |
|---|---|
| Bytes.dfy | bytes, little-endian integers, overwriting, sequence identities |
| Record.dfy, Segment.dfy | configuration, record codec, file names, headers, the scanner |
| Recovery.dfy | recovery of one segment, production and reference form |
| Directory.dfy, Open.dfy | chains of segments; open over arbitrary directories |
| Writer.dfy, Invariant.dfy | the writer's state machine and its inductive invariant |
| Observer.dfy | which watermarks a commit reports |
| Crash.dfy, Runs.dfy | what a crash leaves, and safety over whole runs |
| Grouping.dfy | commit grouping does not matter |
| Crc.dfy, Damage.dfy | CRC-32C, one damaged byte, mid-log damage |
| Leftover.dfy | commits over whatever bytes lie behind a clean end, on any directory that opens |
| Truncation.dfy | files cut short from outside |
| Reader.dfy, Wal.dfy | the reader object, the device, open in place, the log handle |
| Witness.dfy | short runs from a cold start that reach the corners the theorems speak of |

The writer's invariant (`Invariant.Inv`): the segments form a chain (every header valid and naming its
file, every sealed segment non-empty with a clean end, each base the previous segment's largest LSN
plus one); the active segment is zero from the write offset to the segment size; the durable LSN is
the last one of the active segment's run; the staged records continue it; and at most one device
operation is in flight, only on a poisoned handle, and it is exactly the next one due.

An operation's `budget` is the number of device calls that succeed before one fails, so quantifying
over budgets covers a failure at every call. A crash inside an operation is that failure followed by a
reopen, whose `cut` says how much of the operation in flight got through. A run
(`Runs.Run`) is any sequence of appends, commits, checkpoints, crashes and reopens. Beside the log runs
a ledger: the payloads acknowledged so far and the largest checkpoint bound ever passed.

## What is assumed

- Torn writes: a crash leaves an in-order prefix of the one un-synced write over zeros.
- Checksums on torn frames: at each crash, the torn bytes do not read as the record the log wants at
  that place unless they are that record's whole frame (`Crash.TearVisible`, part of `Runs.AllFair`).
  Nothing else is assumed of the checksum: outside Damage.dfy it is an arbitrary function.
- Embedded frames are not excluded. A torn or cut record that embeds an aligned valid frame which
  continues the log is an explicit outcome, TornMidLog at that record.
- In runs, the zeroing done by recovery is one atomic durable step; `Leftover.InterruptedZeroing` says
  what an interrupted one leaves. So is the create or the unlink done while opening. Directory operations
  become durable in order.
- A reopen finds the un-synced part of a write, as far as it got, on the device: after a crash what can
  be read is durable. The code's open does not sync a tail that it finds clean, so this does not cover a
  process that restarts after a failed sync without a power loss; `Crash.UnsyncedIsReported` and
  `Leftover.UnsyncedThenCommit` say what happens then.
- One configuration is used at every open. `max_record_size + 91 <= segment_size` is checked, not
  assumed: open refuses anything else.
- The creation time in a header is a function of the base LSN (`stamp`); it is never read back.
- A directory is the sequence of its segment files in ascending order of base, which is what discovery
  leaves; `Segment.FilenamesAreBases` is the correspondence with file names.
- Offsets are unbounded integers. The code's additions stay below segment size plus 2^33, and it
  saturates at the ends of `u64`.

## What was found

- A torn tail does not always truncate. The forward scan takes a torn tail to have no valid record ahead
  (`src/recovery.rs:241-243`), but payloads are arbitrary: open refuses the whole log if and only if the
  torn record is not whole and embeds an aligned valid frame that continues the log (`Crash.ReopenTorn`;
  `Truncation.CutReopens` for files cut from outside). `Witness.EmbeddedReached` is such a run, with
  CRC-32C, from a cold start.
- A damaged header can cost a whole segment without a word: open unlinks the highest file, with every
  record in it, if and only if its header is bad and it is empty or nothing reads as its first record.
  With a single segment the log then starts afresh at the seed (`Damage.HeaderDamage`).
- A commit that succeeds can leave a log that does not open again, or that holds a record never
  committed. A clean verdict says nothing about the bytes behind the end of the records, and open
  leaves them. `Leftover.CommitReopens` is the exact condition, on bytes that are there before the
  commit, for every directory that opens and every batch; `Leftover.CommitsReopen` for any sequence of
  commits. Two families follow.
  - Short files: a file cut from outside, but with at least a record header's worth of zeros after its
    last record, opens as clean and is not extended again. If a commit has to roll and the sealed file
    ends within a record header of its last record, the next open reports corruption.
    `Truncation.ShortFileReopens` gives the condition on the file's length, if and only if;
    `Truncation.CutReopens` says which cuts are repaired; `Truncation.ShortCleanFileLosesTheLog` is a
    concrete run (`src/recovery.rs:112-119`, `src/wal.rs:494-501`).
  - Stale records: a valid record behind the sentinel with the right LSN comes back when the writer
    reaches it. `Leftover.CleanOpenResurrects` is a concrete run; `Leftover.WriteOverExact` the exact
    condition for one write. After an open that truncated, or with zeros behind the records, it cannot
    happen in any run (`Runs.NoResurrection`).
- Mid-log damage is caught if and only if it shows, that is, unless the damaged frame reads as the
  sentinel or as the record that belongs there (`Damage.DamageIsFatal`). Damage that zeroes the 20
  header bytes of an interior record of the active segment is not caught: open reports a clean log that
  ends before it, although intact records follow (`Damage.ZeroedHeaderIsSilent`). In a sealed segment
  even that is refused (`Damage.DamageRefused`).
- After a failed sync, a process that reopens without a power loss reports as durable what is only in
  the page cache, and a power loss then takes it back, if and only if a staged record is there whole
  (`Crash.UnsyncedIsReported`, reached by `Witness.UnsyncedReached`). If such a process commits and the
  power then fails, the log opens if and only if the commit's first call wrote to the old segment; if it
  rolled at once, the new segments stand behind a gap (`Leftover.UnsyncedThenCommit`, reached by
  `Witness.UnsyncedRollReached`; `src/wal.rs:498-501`, `src/wal.rs:513-536`).
- The decoder ignores the three flag bytes and the padding's value beyond the checksum, so a decoded
  frame is the encoder's frame if and only if those are zero (`Record.DecodedIsEncoded`), and for every
  record there is one that is not (`Record.FlagsAreIgnored`).
- The comment at `src/reader.rs:115-117` says that a break in the LSN sequence makes the reader follow
  the roll; the code at `src/reader.rs:171-177` ends the stream. The model does what the code does.

## Model

| member | source | states |
|---|---|---|
| ByteString.LeByte | src/record.rs:145-179 | integers are little-endian: byte i is digit i in base 256 |
| Record.FrameFields | src/record.rs:145-179 | where each field of an encoded frame lies and what it holds, with the checksum over everything after it and zero padding |
| Record.EncodeInto | src/record.rs:145-179 | the frame of the payload is appended to the buffer, which is otherwise unchanged; the returned length is the frame's |
| Record.DecodeFrame | src/record.rs:202-262 | decoding undoes encoding, whatever bytes follow the frame |
| Record.DecodedIsEncoded | src/record.rs:202-262 | a decoded frame is the encoder's frame if and only if the flag bytes and the padding are zero |
| Record.DecodeAny | src/record.rs:202-262 | a frame with any flag and padding bytes and a matching checksum decodes to its record if its type byte is 1, and to UnknownRecType for any other |
| Record.DecodedIsAny | src/record.rs:202-262 | nothing else decodes to a record or to UnknownRecType |
| Record.DecodeKinds | src/record.rs:202-262 | sentinel, too long, incomplete and bad checksum, each if and only if its own condition on the bytes holds |
| Record.FlagsAreIgnored | src/record.rs:202-262 | for every record there is a frame, with a flag set and the checksum matching, that decodes to it and is not the encoder's |
| Record.PeekFrames | src/record.rs:188-195 | peeking at a record boundary of a staging buffer yields that record's LSN and framed size |
| Segment.FilenamesAreBases | src/segment.rs:98-112 | a name parses to a base if and only if the base fits 64 bits and the name is that base's file name |
| Segment.FilenameShape | src/segment.rs:98-100 | a name is the 20 decimal digits of the base, most significant first, and the suffix |
| Segment.EncodeHeader | src/segment.rs:49-60 | the 64-byte buffer filled field by field is the header of that base |
| Segment.HeaderFields | src/segment.rs:49-60 | where each field of an encoded header lies and what it holds, byte by byte |
| Segment.HeaderExactly | src/segment.rs:65-95 | bytes decode to a base if and only if they carry the magic, version 1, that base, at least 1, and the checksum of everything before it |
| Segment.HeaderRoundTrip | src/segment.rs:65-95 | a header decodes to its base, except that base 0 is refused |
| Segment.ReadFullAt | src/segment.rs:210-221 | however the reads are split, the buffer is filled if and only if the file has that many bytes, and then holds exactly them |
| Segment.ReadRecordAt | src/segment.rs:229-308 | the two-phase scanner gives the same outcome as the one-shot reference reading of the file |
| Segment.ScanFrame | src/segment.rs:229-308 | an encoded frame inside the segment scans as its LSN and payload |
| Segment.ScanIsDecode | src/segment.rs:229-308 | a scan is the decoding of what can be seen from there on, bounded by the file and by the segment |
| Segment.ScanLocal | src/segment.rs:229-308 | the scan of a record depends on that record's bytes only |
| Segment.ScanZeros | src/segment.rs:229-308 | a zeroed region reads as the end of records at every offset in it |
| Recovery.RunFits | src/recovery.rs:94-110 | no run accepts a record after the last LSN |
| Recovery.RunAligned | src/record.rs:75-77 | runs end at 8-aligned distances, because every frame is a multiple of 8 bytes |
| Recovery.RunMaximal | src/recovery.rs:89-111 | a run stops only where the wanted record is not |
| Recovery.RunExtends | src/recovery.rs:89-111 | a file that agrees with another up to the end of its run has that run, continued by what follows |
| Recovery.RunOfFrames | src/recovery.rs:89-111 | frames laid down with consecutive LSNs are read back, byte for byte, as a run |
| Recovery.WriteZeros | src/segment.rs:332-342 | exactly the bytes of the range become zero, extending the file if needed |
| Recovery.ForwardScanFindsValid | src/recovery.rs:248-292 | true if and only if some 8-aligned offset within the bound holds a valid record that continues the log |
| Recovery.ClassifyBoundary | src/recovery.rs:190-229 | sealed: corruption; active: TornMidLog if a continuation is found, else truncation with the tail zeroed; nothing else is written |
| Recovery.AtCapacityInvalid | src/recovery.rs:159-186 | after the last LSN an invalid read is corruption, unless an active file's zero region was cut short |
| Recovery.RecoverSegment | src/recovery.rs:68-135 | the verdict is that of the dense run and its end, the file is zeroed past a truncation and untouched otherwise |
| Recovery.ReferenceClassify | tests/differential.rs:183-273 | the reference classifier, with one-shot reads and a capacity flag, gives the same verdict for all byte strings, sizes and bases (0 read as 1) |
| Recovery.ReferenceForwardScan | tests/differential.rs:156-178 | the reference forward scan, with its own bound: true if and only if a record that continues the log starts at an aligned distance from 8 to the record limit plus 36 |
| Recovery.EndsExactly | src/recovery.rs:112-119 | a scan finds the end of records if and only if no record header fits or 20 zero bytes are there |
| Recovery.CleanExactly | src/recovery.rs:112-119 | the verdict is clean if and only if the records end where the run does; a sealed segment is corrupt there otherwise |
| Recovery.TornExactly | src/recovery.rs:248-304 | below the last LSN an active segment that does not end cleanly is TornMidLog if and only if a record that continues the log starts at an aligned distance from 8 to the record limit plus 36, and truncated otherwise |
| Recovery.LastLsnExactly | src/recovery.rs:94-186 | at the last LSN it is corrupt, and unchanged, if and only if a header would fit and one of its bytes in the file is not zero, be it a record or not; truncated if and only if the zeros are cut short |
| Directory.SealedVerdict | src/wal.rs:392-400 | a sealed segment passes if and only if it has a record and a clean end; it is never repaired |
| Directory.ChainDense | src/wal.rs:370-377 | LSNs run without gap from the oldest base to the end of the active segment |
| Directory.ChainRecovers | src/wal.rs:329-411 | recovery of a chain of segments is decided by its active segment alone |
| Directory.OpenedIsChain | src/wal.rs:329-411 | whatever the file contents, recovery succeeds only on a chain |
| Open.RepairKeeps | src/recovery.rs:218-228 | zeroing a torn tail keeps the surviving run byte for byte, changes nothing past the segment size, and the result classifies as clean at the same place |
| Open.Concluded | src/wal.rs:379-411 | a successful recovery keeps all records, places the writer at their end, reports the cut where it made it, and recovers to itself |
| Open.FreshAlone | src/wal.rs:232-245 | a cold start is an empty log at its seed, in the writer's shape |
| Open.DiscardKeepsChain | src/wal.rs:262-323 | a valid highest segment is never discarded |
| Open.OpenSound | src/wal.rs:143-225 | over arbitrary directories, a successful open leaves one dense chain from the oldest base to the durable LSN, with every record recovery accepted |
| Open.OpenIdempotent | src/wal.rs:187-206 | over arbitrary directories, a second open with any seed finds the same log, reports a clean tail and changes no byte |
| Open.OpenTouchesActiveOnly | src/wal.rs:341-401 | open changes no byte outside the active segment, and none at all when the tail is clean |
| Open.TailReported | src/recovery.rs:221-228 | over arbitrary directories, a truncation is reported if and only if the active segment found does not end cleanly, and names that segment and the offset of the cut |
| Open.ConfigRefused | src/wal.rs:149-157 | open refuses the configuration if and only if the record limit plus 91 exceeds the segment size, or the seed is 0 |
| Open.LastLsnOpens | src/wal.rs:379-391 | a log at the last LSN: open refuses, with corruption at the end of its records, if and only if the bytes there are dirty |
| Writer.FitSpec | src/wal.rs:460-472 | the prefix taken fits, and one record more would not |
| Writer.FitMaximal | src/wal.rs:494-501 | after the prefix is written, nothing more fits |
| Writer.FitFacts | src/wal.rs:455-502 | an empty prefix happens only in a segment that is not fresh, so a roll is always progress |
| Writer.ErrorNamesFailure | src/wal.rs:477-487 | a commit reports an error if and only if the handle ends poisoned, and a failed sync only with a prefix write in flight |
| Writer.OneMoreCall | src/wal.rs:477-487 | a commit reports a failed sync if and only if one more successful call would have made more records durable |
| Writer.LoopGrows | src/wal.rs:459-502 | a commit only adds durable records, and segments based past what was durable |
| Observer.ToldExactly | src/wal.rs:488-491 | under every failure the observer is told, in order, exactly the LSN where the commit ended and the last one in front of each segment it rolled to: one watermark for each synced prefix |
| Invariant.AppendRun | src/wal.rs:474-492 | frames written at the write offset extend the segment's run by exactly their records and keep its tail zero |
| Invariant.WriteKeeps | src/wal.rs:474-492 | a synced prefix keeps the invariant and adds exactly its records to the log |
| Invariant.RollKeeps | src/wal.rs:513-536 | a roll keeps the invariant and the records; the sealed segment is not empty and the new base is the next LSN |
| Invariant.CommitRuns | src/wal.rs:444-536 | for a failure at any call of an N-segment commit: the invariant holds, the durable records are the old ones plus a prefix of the staged ones, the observer saw strictly increasing watermarks ending at the durable LSN, no sealed byte changed; no failure leaves nothing staged, a failure leaves the handle poisoned with one operation in flight |
| Invariant.AppendKeeps | src/wal.rs:416-430 | on a live handle a payload is refused as too large if and only if it exceeds the limit, and a legal one if and only if the last LSN is the maximum; every refusal leaves the state as it was; success stages it under the next LSN and touches nothing else |
| Invariant.DeletableIsMaximal | src/wal.rs:653-664 | the deletable prefix reaches segment i if and only if everything below its base is at most the bound |
| Invariant.LogDrop | src/wal.rs:590-600 | without its oldest segments the log is its own suffix from the first remaining base |
| Invariant.CheckpointKeeps | src/wal.rs:606-645 | under any failure: the invariant holds, only whole segments at or below the bound go, the active one stays, a completed call leaves nothing deletable, a failed one has moved nothing and has the exact number of unlinks in flight; it fails if and only if the calls run out |
| Invariant.CheckpointTwice | src/wal.rs:611-615 | repeating a completed checkpoint does nothing |
| Invariant.PoisonedIsInert | src/wal.rs:416-419 | a poisoned handle refuses append, commit and checkpoint without any effect |
| Crash.SettleReaches | src/segment.rs:140-162 | a crash may let any number of bytes of a write, any stage of a creation and any number of unlinks through |
| Crash.CutFrames | src/wal.rs:477-483 | a write cut anywhere is whole frames followed by a proper piece of the next one |
| Crash.TornRun | src/recovery.rs:89-111 | a segment with a cut write has its old run, the whole new records, and then whatever the torn one reads as |
| Crash.TornRecord | src/recovery.rs:112-132 | a torn record either is whole, or ends the run, and reads as the sentinel only if all behind it is zero |
| Crash.ReopenSame | src/wal.rs:194-206 | between operations a crash loses exactly what was staged |
| Crash.ReopenUnlinked | src/wal.rs:617-635 | after any number of oldest-first unlinks the survivors open to a contiguous suffix that keeps every record above the bound |
| Crash.ReopenCreating | src/segment.rs:140-162 | for every cut of a segment creation, open adopts or discards the file, with the same durable LSN and records |
| Crash.ReopenTorn | src/wal.rs:474-492 | after a torn commit, open refuses if and only if the torn record is not whole and an aligned valid frame that continues the log starts inside what got through of it, and then with TornMidLog at that record; otherwise it brings back the durable records and exactly the staged ones that got through whole |
| Crash.CachedLog | src/reader.rs:123-191 | what can be read after a failed write is the durable records and exactly the staged ones that got through whole, in order |
| Crash.UnsyncedIsReported | src/recovery.rs:112-119 | after a failed sync, a reopen that reads the page cache reports more than a power loss would bring back, if and only if the cache holds a staged record whole; if it holds the whole write, open reports a clean tail and writes nothing |
| Runs.StartGood | src/wal.rs:232-245 | opening an empty directory starts a log that satisfies the run invariant |
| Runs.StepGood | src/wal.rs:416-645 | every operation, under every failure and every crash, keeps the log equal to the ledger, or ends in the one refusal |
| Runs.DownExactly | src/recovery.rs:209-216 | a run goes down if and only if a reopen meets a torn record with an embedded frame |
| Runs.CrashSafety | src/wal.rs:444-536 | after any run from a cold start, each LSN holds exactly the payload acknowledged under it, byte for byte, from the seed on, and only LSNs at or below the largest bound passed to checkpoint may be gone; the sole other end is TornMidLog at a torn record with an embedded frame, on a log that was in that shape up to the crash |
| Runs.LedgerIsClient | src/wal.rs:416-430 | until a reopen, what is acknowledged and what is staged are together exactly the payloads that append accepted, in order |
| Runs.FloorIsBound | src/wal.rs:606-645 | the ledger's floor is the largest bound the client passed to checkpoint |
| Runs.RunGrows | src/wal.rs:538-548 | along any run acknowledged records are never forgotten or rewritten |
| Runs.NoResurrection | src/recovery.rs:218-228 | after open truncated a tail over arbitrary bytes, or found zeros behind the records, every later run finds the surviving prefix plus what was acknowledged since, and nothing else |
| Runs.TruncatedIsTight | src/recovery.rs:218-228 | an open that truncated, over arbitrary bytes, leaves a chain with only zeros behind its records |
| Runs.PoisonedForever | src/wal.rs:606-609 | on a poisoned handle no sequence of appends, commits and checkpoints changes any field or any acknowledgement |
| Runs.SealedForever | src/wal.rs:494-535 | over every run, a sealed segment that no checkpoint removed is still there, still sealed, with the same bytes |
| Grouping.CommitIsPlaceAll | src/wal.rs:459-502 | the batch loop leaves what placing one record at a time leaves: in the active segment if it fits, else in a fresh one |
| Grouping.PlaceAllSplit | src/wal.rs:459-502 | placing a batch and then more equals placing both together |
| Grouping.CommitGrouping | src/wal.rs:459-502 | committing A and then B leaves the same segments, bytes, write offset and durable LSN as committing both at once |
| Grouping.EnoughCalls | src/wal.rs:459-502 | a commit whose device survives one write and one roll for each record never fails |
| Grouping.CommitsAreOne | src/wal.rs:459-502 | any sequence of commits in which none fails leaves the same log as one commit of everything |
| Grouping.CommitEachIsOnce | tests/single_segment.rs:58-80 | commit after every append succeeds and leaves the same log as commit once |
| Crc.OneByteChangesCrc | src/crc.rs:15-17 | changing any one byte changes the CRC-32C |
| Crc.CheckVector | src/crc.rs:35-39 | the bitwise definition has the published check value |
| Crc.ToBitsValue | src/crc.rs:15-17 | the word a byte is mixed in as has the byte's value, for every byte |
| Crc.LetterVector | src/crc.rs:15-17 | the checksum of the letter a |
| Crc.AscendingVector | src/crc.rs:15-17 | the checksum of the bytes 0x00 to 0x1F, as in appendix B.4 of RFC 3720 |
| Damage.OneByteIsCaught | src/record.rs:202-262 | with CRC-32C, any one byte changed outside the length field decodes to BadCrc, never to a record or the sentinel |
| Damage.DamageIsFatal | src/recovery.rs:190-216 | any damage inside one frame of a writer's segment, for any checksum: recovery fails at that record (TornMidLog if active and a record follows, Corruption if sealed, every record) if and only if the damage shows, and then changes no byte; it reads as a clean end exactly when it left 20 zero bytes |
| Damage.DamageRefused | src/wal.rs:341-401 | damage that shows, in any record of any sealed segment or any but the last of the active one, makes open refuse at that record; a zeroed header is refused as a gap in a sealed segment and taken as a clean end in the active one |
| Damage.ZeroedHeaderIsSilent | src/recovery.rs:112-119 | zeroing the header of any interior record of the active segment makes open report a clean log that ends before it, although the next record is intact |
| Damage.OneByteRefused | src/wal.rs:341-401 | with CRC-32C, one byte changed outside the length field, in any record of a sealed segment or any but the last of the active one, makes open refuse at that record |
| Damage.HeaderDamage | src/wal.rs:262-323 | damage that spoils a header, whatever else it does: open refuses, except that the highest file is unlinked with every record in it if and only if it is empty or nothing reads as its first record, and the rest is reported as a clean log |
| Damage.OneHeaderByte | src/segment.rs:65-95 | with CRC-32C, one byte changed anywhere in an encoded header makes it no header |
| Damage.OneHeaderByteRefused | src/wal.rs:262-368 | such a change in any segment of a log makes open refuse, unless the file is the highest and holds no record; then it is discarded |
| Damage.GapRefused | src/wal.rs:370-377 | segments that do not continue the ones before them are a contiguity violation |
| Leftover.OpenedIsPlaced | src/wal.rs:200-224 | every successful open, over arbitrary bytes, stands at the end of the records of a chain |
| Leftover.ScanBehind | src/wal.rs:477-483 | behind a write every scan finds what it found before |
| Leftover.WriteOver | src/wal.rs:474-492 | a write over arbitrary bytes makes the run the old one, the new records, and whatever run the old bytes continue it with |
| Leftover.WriteOverExact | src/wal.rs:474-492 | the run becomes the old one plus the new records if and only if no stale record with the next LSN lies where they end |
| Leftover.LoopFrame | src/wal.rs:459-502 | the commit loop neither reads nor changes the segments before the active one |
| Leftover.CommitReopens | src/wal.rs:444-506 | over arbitrary bytes behind the records, a commit without failure leaves a log that opens with exactly the old and the committed records if and only if, where the part that fits ends, there is a clean end (or, if all fits, no stale continuation and nothing that recovery refuses) |
| Leftover.CommitsReopen | src/wal.rs:444-506 | the same for any sequence of commits, with the condition on all their records together |
| Leftover.UnsyncedThenCommit | src/wal.rs:513-536 | after a failed sync and a restart, a commit that succeeds survives a power loss if and only if its first call wrote to the old segment; a roll at once leaves a gap that open refuses |
| Leftover.InterruptedZeroing | src/segment.rs:332-342 | zeroing cut short leaves a log that opens clean at the same place, unchanged, if and only if the record header there is zero by then, so always after 20 bytes |
| Leftover.CleanOpenResurrects | src/recovery.rs:112-119 | a concrete directory that opens clean and empty, in which one committed record brings a second one back |
| Truncation.CutRun | src/recovery.rs:89-132 | a cut file has exactly the run of the records that end at or before the cut |
| Truncation.KeptIsPrefix | tests/recovery_truncation.rs:26-40 | what a cut keeps is a prefix of the run, and the first record lost crosses the cut |
| Truncation.PhysicalCut | src/recovery.rs:120-186 | cutting a writer's active segment anywhere past its header keeps exactly the whole records, also at the last LSN: clean, truncated, or TornMidLog, the last if and only if the cut record embeds a frame that continues the log |
| Truncation.CutReopens | tests/recovery_truncation.rs:84-117 | cutting the active file of a log of any number of segments: open refuses if and only if what is left of the cut record embeds a frame that continues the log; otherwise the writer stands at the end of the whole records with only zeros behind, at full length again if and only if record bytes were lost, or fewer than 20 zeros were left, or nothing was lost |
| Truncation.ShortFileReopens | src/wal.rs:494-501 | on any chain whose active file is zero behind its records but of any length, a commit without failure leaves a log that opens, with exactly the old and new records, if and only if the batch fits, or no header fits behind the part that does, or the file already held one there |
| Truncation.ShortFileStays | src/wal.rs:459-502 | until such a commit rolls the next one meets the same condition; once it rolled and opens, the writer's invariant holds |
| Truncation.SealedNeedsRoom | src/recovery.rs:198-207 | a sealed file with a zero tail passes if and only if a record header's worth of zeros follows its run |
| Truncation.ShortCleanFileLosesTheLog | src/recovery.rs:112-119 | a concrete run in which a log opened clean on a short file, committed without failure, and cannot be opened again |
| Reader.StreamSegment | src/reader.rs:149-165 | a segment's run is followed by the next segment's, whatever ends it that is not a record |
| Reader.StreamBreaks | src/reader.rs:171-177 | a record with another LSN ends the stream for good |
| Reader.StreamIsLog | src/reader.rs:123-191 | reading from the start of any segment of a chain passes exactly the records from its base on, across boundaries |
| Reader.ReplayIsLog | src/reader.rs:123-191 | over arbitrary directories that open, replay from the beginning is the dense run from the oldest base to the durable LSN |
| Reader.ContainingSegmentIdx | src/wal.rs:673-675 | the last segment whose base is at most the LSN sought, or the oldest |
| Reader.SeekIsReplay | src/wal.rs:569-588 | seeking yields what a full scan yields above the start LSN |
| Reader.LogReader.constructor | src/reader.rs:59-82 | the reader is set to yield the stream of its start segment above its start LSN |
| Reader.LogReader.AdvanceSegment | src/reader.rs:99-109 | moves to the start of the next segment, or ends, or fails to open it; the wanted LSN carries over |
| Reader.LogReader.Next | src/reader.rs:123-191 | yields the first item still to come and leaves the others, or nothing when none is left, and then nothing for ever; yields an error, and ends the stream for good, if and only if it meets a failing call before its next record |
| Reader.BlockedFails | src/reader.rs:144-164 | a reader meets a failing call only where a read or the open of a later segment fails |
| Reader.Replay | tests/single_segment.rs:22-33 | draining a reader yields everything it had to yield, in order, or a prefix of it and the error that cut it short |
| WalHandle.Device.WriteActive | src/wal.rs:477-483 | a write is in flight until it is synced, whether or not it reports success |
| WalHandle.Device.SyncActive | src/wal.rs:484-487 | a sync makes the write in flight durable, or fails and leaves it in flight |
| WalHandle.Device.CreateSegment | src/segment.rs:140-162 | create, pre-allocate, header write and sync are four calls, any of which may fail, and all stay in flight until the directory is synced |
| WalHandle.Device.RemoveOldest | src/wal.rs:617-635 | unlinks oldest first and syncs once; a failure leaves the exact number of unlinks in flight |
| WalHandle.Device.SyncDir | src/wal.rs:678-682 | makes the created file or the unlinks durable, or fails and changes nothing |
| WalHandle.DiscardIncompleteHighest | src/wal.rs:262-323 | drops the highest file if it is empty, or has a bad header and no first record; refuses the other bad ones; never touches another file |
| WalHandle.PassSealed | src/wal.rs:379-400 | a sealed segment ends recovery with its error or passes its largest LSN on |
| WalHandle.RecoverAll | src/wal.rs:329-411 | the loop over all segments computes the outcome for the directory, and writes nothing when it fails |
| WalHandle.RecoverLast | src/wal.rs:379-391 | the active segment alone may be repaired, in place |
| WalHandle.OpenSeeded | src/wal.rs:143-225 | the handle returned, over any bytes, stands exactly where the outcome of open says and is fit for every operation, and is valid if the log is in the writer's shape; a refused open has at most discarded the highest file |
| WalHandle.FittingPrefix | src/wal.rs:460-472 | the walk over the staging buffer stops after the longest prefix of whole records that fits, and knows its last LSN |
| WalHandle.Wal.constructor | src/wal.rs:208-223 | a fresh handle has nothing staged and mirrors the directory |
| WalHandle.Wal.Append | src/wal.rs:416-430 | appends the record's frame to the staging buffer and otherwise changes nothing, on any handle open returned; keeps a valid handle valid |
| WalHandle.Wal.WritePrefix | src/wal.rs:474-492 | writes and syncs a prefix and moves the offset, the durable LSN and the observer, or poisons the handle with the write in flight and says which call failed |
| WalHandle.Wal.Roll | src/wal.rs:513-536 | creates and lists the next segment, or poisons the handle with the creation in flight |
| WalHandle.Wal.WriteWhatFits | src/wal.rs:460-492 | one turn's write, after which the next record does not fit |
| WalHandle.Wal.RollOn | src/wal.rs:494-501 | one turn's roll, always out of a segment that was not fresh |
| WalHandle.Wal.Commit | src/wal.rs:444-506 | on any handle open returned, the loop over the staging buffer ends in the state and with the error of the commit machine for every failure pattern, keeps a valid handle valid, and on success returns the durable LSN, which is the last one assigned |
| WalHandle.Wal.Checkpoint | src/wal.rs:606-645 | on any handle open returned, ends in the state of the checkpoint machine for every failure pattern, and keeps a valid handle valid |
| WalHandle.Wal.ReaderFrom | src/wal.rs:569-588 | on any handle, poisoned or not, refuses if and only if the start is non-zero and below the floor, fails if and only if a failed checkpoint removed the start segment, and otherwise yields exactly the visible stream at or above the start, which on a chain is its log |
| Witness.EmbeddedReached | src/recovery.rs:231-247 | with CRC-32C, a cold start, one append, and a crash inside its commit end in TornMidLog, with nothing acknowledged and nothing damaged |
| Witness.UnsyncedReached | src/wal.rs:484-487 | a cold start, one append and a failed sync reach the state in which a restart reports a record that a power loss takes back |
| Witness.UnsyncedRollReached | src/wal.rs:494-501 | from there, one more commit succeeds and a power loss leaves a log that open refuses |

## Left out

- WalHandle.OpenSeeded: I/O errors while opening, and crashes inside the discard, the cold start or the zeroing, are not modelled; each is one atomic step.
- WalHandle.Wal.Checkpoint: a file that is already gone when it is unlinked (tolerated by the code) cannot occur in the model.
- Reader.ContainingSegmentIdx: the binary search of the standard library is modelled by its result.
- Runs.CrashSafety: sector reordering inside the un-synced write; a crash part-way through recovery's zeroing (Leftover.InterruptedZeroing is about that); and a process restart that leaves a failed write un-synced, after which the property is false (Crash.UnsyncedIsReported and Leftover.UnsyncedThenCommit say exactly when).
- Runs.StepGood: the same three.
- Damage.DamageIsFatal: damage to the last record of the active segment, which no reader of the file can tell from a torn write.
- The operating system's calls (`flock`, `fallocate`, `fdatasync`, `F_FULLFSYNC`, directory `fsync`): steps that succeed or fail; the lock is not modelled.
- The zero-fill fallback for file systems without `fallocate` (`src/segment.rs:152-154`): pre-allocation is atomic in the model.
- Reuse of the scan buffer between reads: the scanner here returns a fresh buffer.
- The options builder, error texts, thread markers and allocation claims: they hold no property of this kind.
- The fuzzing hooks and scan probe: the bound they check is the loop's own window.
- Workload binaries, benchmarks, shell scripts and the fault-injection shim.
- The replication crate described in the design documents: it has no source in the repository.
