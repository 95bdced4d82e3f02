# Verified model of baremetal-arm

A Dafny model of the logic in baremetal-arm that is hardest to get right by
reading: the boot loader's transfer protocols, partition tables, flash and block
drivers, and the cooperative scheduler of chapter 8. `dafny verify dfyconfig.toml`
checks everything.

Each component comes in two layers. Functions and lemmas say what the code
computes and what that means; classes and methods with loops follow the C code
step by step and are proved to compute exactly those functions.

| files | component | main results |
|---|---|---|
| `KermitCodec`, `KermitProtocol`, `KermitReply`, `KermitSession`, `KermitInvariant`, `KermitDelivery`, `KermitLoader` | Kermit receiver | `Delivery`, `OneAnswer`, `MisnumberedStep`, `PacketTwice`, `FileDelivery`, `QuotingRoundTrip`, `HeaderLostRollsBack`, `IgnoredNakDropsPacket`, `RepliesAreFrames`, `Loader.KRecv` |
| `Scheduler` | round-robin scheduler on a wrapping tick | `NeverEarly`, `NeverLate` |
| `NumberText`, `NumberRead`, `MtdDevice`, `MtdTable`, `MtdText`, `MtdRoundTrip`, `MtdFill`, `MtdFormat`, `MtdCode`, `MtdBounds` | MTD partition table | `RoundTrip`, `FillRoundTrip`, `MemsizeRoundTrip`, `CurrentFollows`, `DeletionTracks`, `AcceptedIsSound`, `BoundsExact`, `EraseAlignedExactly` |
| `FlashBank`, `FlashSelect`, `FlashRound`, `FlashSpan`, `FlashCode` | NOR flash sector selection | `SpanExact`, `SelectionExact`, `CoveredExactly`, `LengthFormExact`, `NeverMisaligned`, `TopBankExact`, `Flash.SectProtect` |
| `Floppy` | floppy read with retries | `ReadData`, `CountersAreBudget` |
| `SrecFormat`, `SrecTransfer`, `SrecLoad`, `SrecCode` | S-record save and load | `SaveLoad`, `FileLoaded`, `CorruptFails`, `EmptySave` |
| `EfiMap`, `EfiSort`, `EfiExact` | EFI memory map | `TablePreserves`, `MergePreserves`, `Qsort`, `SortedExactly`, `TableExactly` |
| `GptText`, `GptRoundTrip`, `GptFields`, `GptRename`, `GptCode` | GPT layout text, swap and rename | `RoundTrip`, `ListRead`, `SwapExact`, `SwapTwice`, `SwapHandsOver`, `RenameExact`, `RenamesItsOwn` |
| `OneNand` | OneNAND streaming over bad blocks | `StreamIsOneWrite`, `StreamReadBack`, `LandsWhereAsked` |
| `FooterChecksum` | end-around-carry checksum | `OrderIrrelevant`, `InverseMakesZero`, `ChangeDetected` |
| `EnvLookup` | environment lookup before relocation | `EnvGetF` |
| `Machine`, `Arithmetic`, `Sequences` | machine words and facts shared by all | |

Conventions. `char` is unsigned and `ulong` is 32 bits wide, as on the ARM target;
64-bit and 32-bit wrap-around is written out. Devices are sequences, memory is a
map, the serial line is the sequence of characters that will arrive, and a read
that finds nothing left waits. Clock reads, transfer errors, bad-block maps and
the answers of the block layer are parameters.

## Where the code does less than one would expect

These are properties that fail for some inputs. Each has a lemma that shows the
failure and one that says exactly when the property holds.

- Kermit, lost header: when the peer has moved on and the next header is
  damaged, the receiver rolls back to before the packet it has acknowledged and
  sends NAK with the old number. `HeaderLostRollsBack` says when data is lost by
  that, and `IgnoredNakDropsPacket` that a peer which ignores this NAK (or does
  not get it) has that packet silently dropped. `Delivery` is for peers that
  answer NAK(n) by sending packet n again, as section 5.2 of the Kermit Protocol
  Manual has it.
- Kermit, altered number: the receiver moves its checkpoint as soon as it reads a
  number, before any check. A copy that is rejected but carries another number does
  no harm if and only if that number is the one read last, or nothing of the peer's
  packet is stored yet and the packet before, if the NAK names it, carries no data
  (`MisnumberedStep`); otherwise data is stored twice (`PacketTwice`), for which
  a lost ACK and three damaged characters are enough (`LostAckThenHarm`). `Delivery`
  is for runs without such an event.
- Kermit, quoting: `QuotingRoundTrip` shows that unquoting works for every text
  exactly when the quote character is not one of 63-95 (modulo 128); the manual
  allows 33-62 and 96-126.
- Partition text: a device id may hold a colon, at which the parser cuts it off. The
  generated text is read back exactly when no id holds one and no user name is
  empty or holds a closing parenthesis (`MtdRoundTrip.RoundTrip`).
- Partition deletion: the current partition follows a deletion exactly under
  `SafeDeletion`. Deleting the later of two partitions with equal offsets while
  the first is current makes the index wrap to 255 (`UnsafeDeletionWraps`).
- Scheduler: a task that has not run yet is judged by the wrapped clock alone
  (`FirstRunByWrappedClock`), so a scan that begins at tick 2^32 passes over a task
  that is due (`LateFirstRun`).
- Erase regions: block addresses are computed in 32 bits. `EraseAlignedExactly`:
  the check is right for every partition exactly when the device ends below 4 GiB.
- Flash selection: a request that ends at the top of the address space goes on
  from address 0. `SelectionExact`, `TopBankExact`, `LengthFormExact`: it selects
  nothing more exactly when no later bank starts at 0.
- Flash selection, start inside a sector: it is refused exactly when it lies below the
  last byte of its bank or the range ends with a sector; otherwise the command goes on
  with nothing selected (`StartOffBoundary`).
- S-records: saving nothing and loading it reports two bytes (`EmptySave`).
- EFI sort: the comparison is right for two descriptors exactly when their
  addresses are less than 2^63 apart (`CompareExact`). Two that are farther apart
  come out in the wrong order (`PairUnsorted`), and conventional memory at both ends
  of the address space is then merged into one descriptor (`TopMergesWithBottom`).
  The sort, and with it the table, is in address order for certain exactly when no
  two addresses are 2^63 or more apart (`SortedExactly`, `TableExactly`).
- GPT: the list does not carry the bootable flag, so swap and rename hand over a
  table that differs only in names exactly when no partition is bootable
  (`SwapHandsOver`, `RenameHandsOver`); a name of exactly 32 characters, or one
  that a reference makes that long, passes the command's check and is refused by
  the reader (`RenameExact`); a new name is cut off at a comma, and a semicolon in
  it adds a partition to the table handed over (`RenameSeparated`); with unused
  partition numbers below it, rename changes another partition (`RenamesItsOwn`,
  `GapRenamesAnother`); a list longer than the reader looks at is not read back
  (`RoundTrip`).
- OneNAND: a skip left over from another stream moves a new stream that starts
  where that one ended. `LandsWhereAsked`: this is harmless exactly when only bad
  blocks are jumped over.
- Footer checksum: a change between 0 and all ones goes unnoticed
  (`ChangeDetected`), and a length that is no multiple of four is reported as the
  checksum of a good footer (`ComputeCrc`).

## Model

| member | source | states |
|---|---|---|
| KermitCodec.DecodeConcat | src/common_uboot/cmd/load.c:662-677 | decoding a text cut in two, even between a quote and the quoted character, with the pending quote carried over, is decoding it whole |
| KermitCodec.DecodeChar | src/common_uboot/cmd/load.c:545-553 | each character, quoted if it has to be, is decoded to itself |
| KermitCodec.DecodeEncode | src/common_uboot/cmd/load.c:662-677 | decoding undoes control quoting for every byte string and every unambiguous quote character |
| KermitCodec.QuotingRoundTrip | src/common_uboot/cmd/load.c:545-553 | decoding undoes quoting for all texts if and only if the quote character is outside 63-95 modulo 128 |
| KermitCodec.EncodedPrintable | src/common_uboot/cmd/load.c:662-677 | an encoded text has only characters that may appear in a packet |
| KermitReply.CheckIsManual | src/common_uboot/cmd/load.c:555-563 | the check character is the one of section 6 of the Kermit Protocol Manual: bits 6 and 7 of the sum added in, six bits kept, plus 32 |
| KermitReply.OneBitDetected | src/common_uboot/cmd/load.c:555-563 | whatever the packet, one bit of one character the other way round gives another check |
| KermitReply.HeardReply | src/common_uboot/cmd/load.c:574-598 | a peer that skips to the start mark and reads length, number, type, data and check hears every reply right, whatever padding and end of line it has asked for |
| KermitReply.DataAnswered | src/common_uboot/cmd/load.c:901-943 | every packet that ends in its data field or trailer gets one answer |
| KermitReply.OneAnswer | src/common_uboot/cmd/load.c:835-943 | every packet that ends adds exactly one answer to the output: Y if it was accepted, N if it was rejected, for the number in it or, if it was given up before that, the last one read, behind the padding and in front of the end of line in force |
| KermitReply.AnnouncedBack | src/common_uboot/cmd/load.c:685-769 | padding count, padding character, end of line and quote announced by the peer are the ones used, and those left off are 0, NUL, CR and # |
| KermitSession.AcceptData | src/common_uboot/cmd/load.c:901-943 | any number of data characters followed by the right check and the end mark is accepted, with exactly those characters taken in |
| KermitSession.ShortFrame | src/common_uboot/cmd/load.c:574-585 | where length, number, type, data, check and end lie in a normal packet |
| KermitSession.LongFrame | src/common_uboot/cmd/load.c:877-900 | where the fields of an extended-length packet lie, and that both its checks are right |
| KermitSession.AcceptLong | src/common_uboot/cmd/load.c:877-943 | a right extended header followed by that many characters and a right trailer is accepted |
| KermitSession.AcceptFrame | src/common_uboot/cmd/load.c:835-943 | every well-formed packet, short or long, is accepted with its data taken in once and nothing behind it consumed |
| KermitSession.PeerMoves | src/common_uboot/cmd/load.c:926-941 | where the answer, read off the characters sent, leads the peer: on after an ACK for its packet, back after a NAK for the one before |
| KermitSession.SendInitReplyPrintable | src/common_uboot/cmd/load.c:685-769 | the reply to a send-init is printable and at most 13 characters for every number of parameters received |
| KermitInvariant.TakeData | src/common_uboot/cmd/load.c:625-677 | data characters are stored as their decoding, right behind what is already there, and nothing below is touched |
| KermitInvariant.TakeOne | src/common_uboot/cmd/load.c:662-677 | one data character stores at most one byte, the one decoding gives for it |
| KermitInvariant.RejectedNumbered | src/common_uboot/cmd/load.c:835-933 | a packet rejected after its number was read leaves the receiver at the checkpoint, with all memory below it unchanged |
| KermitInvariant.MorePacket | src/common_uboot/cmd/load.c:772-946 | what follows a rejected packet has no influence on it |
| KermitInvariant.RunEvent | src/common_uboot/cmd/load.c:772-946 | the main loop, given noise, one packet in any condition and anything behind it, does the one step of the protocol and goes on behind it |
| KermitInvariant.NumberAtCheckpoint | src/common_uboot/cmd/load.c:858-867 | once the number of the peer's packet is read, the receiver stands at the checkpoint in front of that packet, whatever number was read before |
| KermitInvariant.TakePacket | src/common_uboot/cmd/load.c:901-918 | from in front of a packet, taking it in leads behind it, and a rollback leads back |
| KermitInvariant.AcceptedStep | src/common_uboot/cmd/load.c:835-943 | an intact packet, repeated or not, keeps the invariant and leads behind the packet, with the checkpoint in front of it |
| KermitInvariant.DamagedStep | src/common_uboot/cmd/load.c:835-933 | a rejected packet with the right number keeps the invariant and leads in front of it |
| KermitInvariant.HeaderLostStep | src/common_uboot/cmd/load.c:835-933 | one whose number was lost leads back to the checkpoint and keeps the invariant, if the peer honours the NAK |
| KermitInvariant.RepeatedNumberStep | src/common_uboot/cmd/load.c:858-867 | a rejected packet that repeats the number read last rolls back to the checkpoint and keeps the invariant |
| KermitInvariant.WeightGrows | src/common_uboot/cmd/load.c:662-677 | a packet leaves the position where it was if and only if it carries no data |
| KermitInvariant.HarmlessStep | src/common_uboot/cmd/load.c:851-867 | a harmless packet with another number, rejected, keeps the invariant |
| KermitInvariant.HarmfulStep | src/common_uboot/cmd/load.c:851-867 | any other one leaves the receiver and its checkpoint behind a packet that the peer sends again |
| KermitInvariant.ResentStores | src/common_uboot/cmd/load.c:835-943 | packets that arrive intact one after the other are decoded behind where the receiver stands, once each |
| KermitInvariant.MisnumberedStep | src/common_uboot/cmd/load.c:851-867 | a rejected packet with another number keeps the invariant if and only if it repeats the number read last, or nothing of the peer's packet is stored yet and the packet before, if the NAK names it, carries no data |
| KermitInvariant.PacketTwice | src/common_uboot/cmd/load.c:851-943 | after a harmful one the packets from the one sent next up to where the receiver stood are stored a second time, behind all that was there, and they do carry data |
| KermitInvariant.LostAckThenHarm | src/common_uboot/cmd/load.c:851-933 | a lost ACK of any data packet and three damaged characters are enough for that |
| KermitDelivery.EventStep | src/common_uboot/cmd/load.c:772-946 | every event, harmless if misnumbered, keeps the invariant |
| KermitDelivery.DeliveryFrom | src/common_uboot/cmd/load.c:772-946 | from any state of the invariant a run without harmful events completes exactly when the break packet gets through, with memory as the packets leave it |
| KermitDelivery.Delivery | src/common_uboot/cmd/load.c:772-946 | in every run of a peer that acts on the answers it reads off the line, whatever copies are damaged, misnumbered without harm, repeated or whose ACK is lost, the transfer completes exactly when the break packet arrives, and then memory from the load address holds the decoded data packets in order, each once, and the length is their size |
| KermitDelivery.AbortEnds | src/common_uboot/cmd/load.c:822-831 | a ^C between packets ends every transfer that is not complete, after any run of events and whatever follows |
| KermitDelivery.AfterIsDecoded | src/common_uboot/cmd/load.c:662-677 | what the packets leave is the decoding of their data fields joined together |
| KermitDelivery.FileDelivery | src/common_uboot/cmd/load.c:662-677 | a file quoted with the announced character and cut into packets anywhere arrives as it was |
| KermitDelivery.HeaderLostRollsBack | src/common_uboot/cmd/load.c:835-933 | after a lost header the receiver is before the packet it acknowledged; that is also behind it if and only if the packet carried no data |
| KermitDelivery.IgnoredNakDropsPacket | src/common_uboot/cmd/load.c:835-943 | if that NAK is not honoured, the next packet leaves the receiver exactly as if the acknowledged one had never been sent |
| KermitDelivery.RepliesAreFrames | src/common_uboot/cmd/load.c:555-598 | every ACK, NAK and send-init reply, for every number and parameter count, is a packet that the receiver's own rules accept when end of line is CR |
| KermitDelivery.SendInitAnswer | src/common_uboot/cmd/load.c:685-769 | a send-init is answered parameter by parameter, with the literal capabilities and the negotiated padding and end of line |
| KermitLoader.Loader.constructor | src/common_uboot/cmd/load.c:782-795 | the receiver starts at the load address with nothing pending |
| KermitLoader.Loader.KDataRestore | src/common_uboot/cmd/load.c:656-660 | the write address and the pending quote go back to the checkpoint, memory stays |
| KermitLoader.Loader.BinDataChar | src/common_uboot/cmd/load.c:625-632 | one byte is stored and the address moves on |
| KermitLoader.Loader.KDataChar | src/common_uboot/cmd/load.c:662-677 | one data character changes the sink as the specification's step does |
| KermitLoader.Loader.Chk1 | src/common_uboot/cmd/load.c:555-563 | the loop up to the NUL computes the type-1 check of the bytes before it |
| KermitLoader.Loader.S1SendPacket | src/common_uboot/cmd/load.c:536-571 | padding and then the buffer up to its NUL are sent, nothing else |
| KermitLoader.Loader.Seal | src/common_uboot/cmd/load.c:580-583 | the check over what is in the buffer, the end of line and the NUL are put behind it, and nothing else changes |
| KermitLoader.Loader.Finish | src/common_uboot/cmd/load.c:760-768 | a filled buffer is completed and sent as the specified reply |
| KermitLoader.Loader.SendSimple | src/common_uboot/cmd/load.c:574-598 | an ACK or NAK for the current number is sent |
| KermitLoader.Loader.Crack | src/common_uboot/cmd/load.c:685-769 | the cascade remembers exactly the parameters the peer sent and builds the reply of matching length |
| KermitLoader.Loader.CrackRemembered | src/common_uboot/cmd/load.c:713-758 | the cascade from the padding count on |
| KermitLoader.Loader.CrackEol | src/common_uboot/cmd/load.c:725-758 | the cascade from the end-of-line character on |
| KermitLoader.Loader.CrackRest | src/common_uboot/cmd/load.c:731-758 | the cascade from the quote character on, refusing the rest |
| KermitLoader.Loader.HandleSendPacket | src/common_uboot/cmd/load.c:685-769 | a send-init is negotiated and answered as the specification says, inside its buffers |
| KermitLoader.Loader.SaveParm | src/common_uboot/cmd/load.c:911-917 | parameters are kept in order and the pointer never leaves the buffer |
| KermitLoader.Loader.PacketError | src/common_uboot/cmd/load.c:928-933 | rollback and NAK |
| KermitLoader.Loader.ReceiveTrailer | src/common_uboot/cmd/load.c:919-943 | check, end mark and answer give the specified verdict and state for every line |
| KermitLoader.Loader.ReceiveRest | src/common_uboot/cmd/load.c:901-943 | the data loop and trailer give the specification's verdict and state for every line |
| KermitLoader.Loader.ReceiveExtended | src/common_uboot/cmd/load.c:877-943 | so does the extended header |
| KermitLoader.Loader.Sequence | src/common_uboot/cmd/load.c:858-867 | a repeated number rolls back, a new one takes a checkpoint |
| KermitLoader.Loader.ReceiveTyped | src/common_uboot/cmd/load.c:870-943 | so does everything from the packet type on |
| KermitLoader.Loader.ReceiveOne | src/common_uboot/cmd/load.c:835-943 | one packet is handled as the specification says, on every line |
| KermitLoader.Loader.KRecv | src/common_uboot/cmd/load.c:772-946 | the whole receiver follows the specification run on every line: same end, same memory, same replies, same length |
| Scheduler.TaskTable.constructor | src/08_scheduler/src/sched.c:5-6 | the table starts empty |
| Scheduler.TaskTable.AddTask | src/08_scheduler/src/sched.c:8-21 | the task goes behind the others unless ten are there, in which case nothing changes |
| Scheduler.TaskTable.VisitSlot | src/08_scheduler/src/sched.c:25-36 | a slot runs exactly when present and due by the first clock read, records the second, and leaves all other slots alone |
| Scheduler.WrappedDifference | src/08_scheduler/src/sched.c:32-33 | the 32-bit difference of two ticks never exceeds the true one and equals it below 2^32 |
| Scheduler.SafeStep | src/08_scheduler/src/sched.c:23-38 | every step, ticks included, keeps each recorded time in step with the true clock and the runs spaced |
| Scheduler.SafeRun | src/08_scheduler/src/sched.c:23-38 | so does every run, and no period changes |
| Scheduler.NeverEarly | src/08_scheduler/src/sched.c:23-38 | in every run, across any number of wraps, successive runs of a task are at least its period of true ticks apart |
| Scheduler.TestedSlotOnTime | src/08_scheduler/src/sched.c:25-36 | at its test a slot that has run before is at most ten visits past due, so the wrapped clock measures the true gap |
| Scheduler.OnTimeStep | src/08_scheduler/src/sched.c:23-38 | every step keeps all such slots within their bound |
| Scheduler.OnTimeRun | src/08_scheduler/src/sched.c:23-38 | so does every run |
| Scheduler.NeverLate | src/08_scheduler/src/systime.c:6-12 | if a visit takes at most E ticks and period + 10E stays below 2^32, the clock never gets more than 11E past the time a task is due again without its next run recorded; the same for its first run if the scan begins before tick 2^32 - 10E |
| Scheduler.FirstRunByWrappedClock | src/08_scheduler/src/sched.c:32-33 | a task that has not run yet runs at its test if and only if the wrapped clock has reached its period |
| Scheduler.LateFirstRun | src/08_scheduler/src/sched.c:32-33 | so a scan beginning at tick 2^32 passes over a task that is due |
| Scheduler.VisitIsSteps | src/08_scheduler/src/sched.c:25-36 | a turn of the loop is the test step and, if the task runs, any number of ticks and the record step |
| NumberText.ParseStrtoull | src/common_uboot/lib/strto.c:131-148 | the digit loop computes the 64-bit value and the rest of the text, whatever the base prefix |
| NumberText.ParseMemsize | src/common_uboot/cmd/mtdparts.c:172-192 | the falling-through suffix shifts multiply by 1024 per step, modulo 2^64 |
| NumberText.DigitsOfNumeral | src/common_uboot/lib/strto.c:131-148 | reading a printed numeral of any base gives its value and goes on behind it |
| NumberText.StrtoullOfNumeral | src/common_uboot/lib/strto.c:131-148 | a decimal numeral is never taken for octal or hexadecimal and is read back |
| NumberText.MemsizeRoundTrip | src/common_uboot/cmd/mtdparts.c:205-219 | parsing the printed form of any 64-bit size gives the size, in front of any delimiter |
| NumberRead.NumberTaken | src/common_uboot/lib/strto.c:131-149 | a number in decimal, octal or hexadecimal, in either case of digits, is taken whole and read as its value modulo 2^64 |
| NumberRead.SizeTaken | src/common_uboot/cmd/mtdparts.c:172-192 | so is one with a unit k, m or g in either case, times 1024, 1024^2 or 1024^3 |
| MtdDevice.FindBlock | src/common_uboot/cmd/mtdparts.c:362-370 | the nested loops find a block start exactly when there is one, in 32-bit addresses |
| MtdDevice.PartValidateEraseblock | src/common_uboot/cmd/mtdparts.c:325-400 | the verdict is the erase alignment of start and end |
| MtdDevice.BoundaryIsStartOrEnd | src/common_uboot/cmd/mtdparts.c:362-389 | on a tiled device below 4 GiB the boundaries are exactly the block starts and the end of the device |
| MtdDevice.UniformJudged | src/common_uboot/cmd/mtdparts.c:337-355 | on a uniform device offset and size are multiples exactly when start and end are on boundaries |
| MtdDevice.TiledJudged | src/common_uboot/cmd/mtdparts.c:356-397 | below 4 GiB the check accepts a partition of the device exactly when it starts and ends on boundaries |
| MtdDevice.WholeDeviceRefused | src/common_uboot/cmd/mtdparts.c:356-397 | from 4 GiB on it refuses the partition over the whole device |
| MtdDevice.EraseAlignedExactly | src/common_uboot/cmd/mtdparts.c:325-400 | it is right for every partition if and only if the device ends below 4 GiB |
| MtdDevice.BoundsExact | src/common_uboot/cmd/mtdparts.c:412-439 | the wrapping checks accept exactly the partitions with 0 <= offset < offset + size <= device size in exact integers, fill-up size included, and return that size |
| MtdDevice.TruncatedStart | src/common_uboot/cmd/mtdparts.c:362-370 | on a tiled device above 4 GiB a start is accepted that is no boundary |
| MtdTable.Position | src/common_uboot/cmd/mtdparts.c:536-563 | the place in front of the first partition with an offset as large or larger |
| MtdTable.InsertKeepsOrder | src/common_uboot/cmd/mtdparts.c:513-567 | inserting there keeps the list sorted |
| MtdTable.InsertionExact | src/common_uboot/cmd/mtdparts.c:513-565 | a second partition at offset 0 is refused and nothing changes; every other one is added in order, and no other partition or device is touched |
| MtdTable.RemoveKeepsOrder | src/common_uboot/cmd/mtdparts.c:475-477 | removing a partition keeps the list sorted |
| MtdTable.PartitionTable.LinkBefore | src/common_uboot/cmd/mtdparts.c:547-560 | linking before an entry counts the partition and pushes the current index |
| MtdTable.PartitionTable.LinkLast | src/common_uboot/cmd/mtdparts.c:563-566 | linking last leaves the current index |
| MtdTable.PartitionTable.PartSortAdd | src/common_uboot/cmd/mtdparts.c:513-567 | the list walk refuses exactly the conflicting partitions and otherwise gives the specified table |
| MtdTable.PartitionTable.DeletePart | src/common_uboot/cmd/mtdparts.c:448-485 | the new table, current index and device included, is the specified one |
| MtdTable.PartitionTable.DeleteDevice | src/common_uboot/cmd/mtdparts.c:758-780 | a deleted current device is replaced by the first one left, index 0; DeviceDeletionTracks says what stays |
| MtdTable.PushedDenotes | src/common_uboot/cmd/mtdparts.c:547-555 | the pushed index denotes the partition it denoted, and removing the new one restores the list |
| MtdTable.PulledDenotes | src/common_uboot/cmd/mtdparts.c:464-472 | the pulled index denotes the partition it denoted |
| MtdTable.InsertionTracks | src/common_uboot/cmd/mtdparts.c:513-567 | every insertion keeps the table valid and the current index on its partition, equal offsets included; a refused one changes nothing |
| MtdTable.DeletionTracks | src/common_uboot/cmd/mtdparts.c:448-485 | a deletion leaves the current index on its partition (0 if that one is deleted) if and only if it is safe |
| MtdTable.DeletionKeepsValid | src/common_uboot/cmd/mtdparts.c:448-485 | safe deletions, that of the last partition included, keep the table valid |
| MtdTable.DeviceDeletionTracks | src/common_uboot/cmd/mtdparts.c:758-780 | when another device goes, current device and partition stay the same; when the current one goes, the first partition of the first device left takes over |
| MtdTable.InsertionDenotes | src/common_uboot/cmd/mtdparts.c:513-567 | after an insertion the current index denotes the same partition of the same device |
| MtdTable.DeletionDenotes | src/common_uboot/cmd/mtdparts.c:448-485 | after a safe deletion, that of a whole device included, it denotes the same partition, or the first one if its own was deleted |
| MtdTable.CommandDenotes | src/common_uboot/cmd/mtdparts.c:448-567 | the same for any command |
| MtdTable.UnsafeDeletionWraps | src/common_uboot/cmd/mtdparts.c:464-472 | with equal offsets, deleting behind the current partition makes its index 255 |
| MtdTable.CurrentFollows | src/common_uboot/cmd/mtdparts.c:448-567 | over every sequence of insertions, safe deletions and device removals the table stays sorted and counted, and the current index denotes the same partition as long as that is not deleted |
| MtdTable.CurrentReset | src/common_uboot/cmd/mtdparts.c:448-485 | once it is deleted, the first partition of its device, or of the first device left, takes over and is followed in turn |
| MtdRoundTrip.PartRoundTrip | src/common_uboot/cmd/mtdparts.c:598-706 | a printed partition is read back field by field, its offset missing exactly when it was left out |
| MtdRoundTrip.PartsRoundTrip | src/common_uboot/cmd/mtdparts.c:891-912 | so are all partitions of a device, offsets left out for adjacent ones being restored |
| MtdRoundTrip.AddedInOrder | src/common_uboot/cmd/mtdparts.c:947-955 | sorting partitions with increasing offsets in one by one keeps their order |
| MtdRoundTrip.ReadIsLegible | src/common_uboot/cmd/mtdparts.c:837-961 | whatever text a device is read from, its id holds no colon, and no name is empty or holds a closing parenthesis |
| MtdRoundTrip.DeviceRoundTrip | src/common_uboot/cmd/mtdparts.c:837-961 | a printed device is read back, with the cursor behind its separator, if and only if its id holds no colon and no user name is empty or holds a closing parenthesis |
| MtdRoundTrip.ListIsLegible | src/common_uboot/cmd/mtdparts.c:1575-1592 | the same for every device of a list |
| MtdRoundTrip.DevicesRoundTrip | src/common_uboot/cmd/mtdparts.c:1575-1592 | a list of devices behind those already read is read back if and only if all are so |
| MtdRoundTrip.RoundTrip | src/common_uboot/cmd/mtdparts.c:1549-1599 | for known distinct devices with valid partitions of at least 4096 bytes at increasing offsets, parsing the generated string rebuilds the same list if and only if no device id holds a colon and no user name is empty or holds a closing parenthesis |
| MtdFormat.GenerateForm | src/common_uboot/cmd/mtdparts.c:1078-1196 | the generated text is the devices joined by semicolons, each its id, a colon and its partitions joined by commas, a partition its size, its offset exactly where it does not follow the one before, its name and "ro" |
| MtdFormat.PlacedInTurn | src/common_uboot/cmd/mtdparts.c:881-916 | whatever text is accepted, its partitions are the ones it lists, none left out, each where it says or right behind the one before, in exact integers |
| MtdFill.FillRead | src/common_uboot/cmd/mtdparts.c:598-672 | a partition whose size is written "-" is read field by field, its size left open |
| MtdFill.FillThenComma | src/common_uboot/cmd/mtdparts.c:659-665 | nothing may follow it |
| MtdFill.PartsFillRead | src/common_uboot/cmd/mtdparts.c:598-703 | partitions of which the last is a fill-up one are read back with the sizes they had |
| MtdFill.DeviceFillRead | src/common_uboot/cmd/mtdparts.c:837-975 | so is a device, if and only if its id and names are legible |
| MtdFill.FillRoundTrip | src/common_uboot/cmd/mtdparts.c:598-703 | a list in which any devices whose last partition runs to the end say "-" for its size is read back as it was, if and only if ids and names are legible |
| MtdFill.FillIsLast | src/common_uboot/cmd/mtdparts.c:659-665 | in any text, a size written "-" is accepted only where nothing else of the device follows |
| MtdFill.FillRunsToEnd | src/common_uboot/cmd/mtdparts.c:412-415 | in any text, such a partition starts where it says or behind the one before and runs to the end of the device |
| MtdCode.GeneratePart | src/common_uboot/cmd/mtdparts.c:1120-1166 | one partition is printed as specified, its offset only where it is not the end of the previous one |
| MtdCode.GenerateDevice | src/common_uboot/cmd/mtdparts.c:1102-1177 | the partition loop prints the specified text |
| MtdCode.GenerateMtdparts | src/common_uboot/cmd/mtdparts.c:1078-1196 | the device loop prints the text that the round trip is about |
| MtdCode.PartParseAt | src/common_uboot/cmd/mtdparts.c:598-706 | the cursor code accepts and refuses as specified, for every text, and always moves forward |
| MtdCode.ParseNameAt | src/common_uboot/cmd/mtdparts.c:633-650 | a missing or empty name is refused, else the name is taken up to the closing parenthesis |
| MtdCode.FinishParse | src/common_uboot/cmd/mtdparts.c:633-673 | name, option and separator as specified |
| MtdCode.PlacePart | src/common_uboot/cmd/mtdparts.c:896-904 | a missing offset is filled in and the partition validated |
| MtdCode.ParseOne | src/common_uboot/cmd/mtdparts.c:891-904 | one turn of the partition loop |
| MtdCode.ParsePartsAt | src/common_uboot/cmd/mtdparts.c:881-916 | the partition loop collects the specified partitions or refuses |
| MtdCode.FindIdIn | src/common_uboot/cmd/mtdparts.c:1006-1027 | the first id of that name |
| MtdCode.FindDeviceIn | src/common_uboot/cmd/mtdparts.c:790-803 | the device of that type and number |
| MtdCode.StartOffset | src/common_uboot/cmd/mtdparts.c:884-889 | the end of the last partition of a device already listed, else 0 |
| MtdCode.SortParts | src/common_uboot/cmd/mtdparts.c:947-955 | the partitions are sorted in one by one, or a conflict refuses all |
| MtdCode.DeviceParseAt | src/common_uboot/cmd/mtdparts.c:837-961 | the whole of device parsing, errors included, is as specified |
| MtdCode.DeviceBody | src/common_uboot/cmd/mtdparts.c:881-957 | partitions, separator and sorted device |
| MtdCode.ParseMtdparts | src/common_uboot/cmd/mtdparts.c:1549-1599 | the device loop gives the specified list, or none at all on any error |
| MtdBounds.PassedOnBoundaries | src/common_uboot/cmd/mtdparts.c:325-400 | what the erase-block check passes on such a device starts and ends on boundaries |
| MtdBounds.PlacedInBounds | src/common_uboot/cmd/mtdparts.c:896-904 | a placed partition lies inside the device in exact integers and, on a uniform device or a tiled one below 4 GiB, starts and ends on erase-block boundaries |
| MtdBounds.PartsInBounds | src/common_uboot/cmd/mtdparts.c:891-912 | so do all partitions of a device text |
| MtdBounds.AddedInBounds | src/common_uboot/cmd/mtdparts.c:947-955 | sorting them in keeps all in bounds and leaves the list sorted |
| MtdBounds.AddedAll | src/common_uboot/cmd/mtdparts.c:943-955 | the partitions of a device are those read, sorted; they are refused if and only if two start at offset 0 |
| MtdBounds.PartsLargeEnough | src/common_uboot/cmd/mtdparts.c:618-623 | whatever the text, each partition has at least 4096 bytes or runs to the end of the device |
| MtdBounds.DeviceSound | src/common_uboot/cmd/mtdparts.c:837-961 | an accepted device has only such partitions, sorted |
| MtdBounds.DevicesSound | src/common_uboot/cmd/mtdparts.c:1575-1592 | so has every device of a list |
| MtdBounds.AcceptedIsSound | src/common_uboot/cmd/mtdparts.c:1549-1599 | for every text whatever that is accepted, all partitions of all devices are in bounds, on erase-block boundaries (uniform devices and tiled ones below 4 GiB), sorted, at most one at offset 0, and at least 4096 bytes or up to the end of the device |
| MtdBounds.AcceptedIsKnown | src/common_uboot/cmd/mtdparts.c:1549-1599 | every text that is accepted lists known devices, at least one, each once and with partitions |
| FlashBank.ScanFirst | src/common_uboot/cmd/flash.c:218-234 | the sector scan finds the sector that starts at the first address exactly when there is one |
| FlashBank.ScanLast | src/common_uboot/cmd/flash.c:218-234 | and the sector that ends at the last address |
| FlashBank.ChooseMeans | src/common_uboot/cmd/flash.c:235-254 | chosen sectors start at the first address and end at the last one or with the bank |
| FlashSelect.Counted | src/common_uboot/cmd/flash.c:187-268 | whenever the computation succeeds, each bank has no sectors or a range of its own, and the count is the number of chosen sectors |
| FlashSelect.SelectionExact | src/common_uboot/cmd/flash.c:187-268 | whenever the computation succeeds, the sectors of all banks form one gapless run from the first address that never passes the last and stops short only at a bank end, if and only if the request ends below the last address of all or no bank at address 0 is behind one that ends there |
| FlashSelect.SelectionSound | src/common_uboot/cmd/flash.c:187-268 | the one half: the selection is such a run under that condition |
| FlashSelect.SelectionStep | src/common_uboot/cmd/flash.c:235-254 | the same over a bank that sectors are chosen from |
| FlashSelect.SelectionSpoiled | src/common_uboot/cmd/flash.c:187-268 | the other half: a bank at address 0 behind one that ends at the last address always makes a gap in a successful request up to there |
| FlashSelect.TakenUpAgain | src/common_uboot/cmd/flash.c:203-265 | a request for the whole address space chooses sectors if and only if a known bank starts at address 0 |
| FlashSpan.ChooseToEnd | src/common_uboot/cmd/flash.c:235-254 | a range that starts at a sector and runs past the bank takes all sectors from there on |
| FlashSpan.StartsElsewhere | src/common_uboot/cmd/flash.c:255-264 | a range that starts outside a bank takes nothing of it and is refused if and only if it ends with one of its sectors |
| FlashSpan.SpanGoesOn | src/common_uboot/cmd/flash.c:203-265 | from any bank behind the first one on, the range is accepted only if the banks lead on to the last one, and then all of it is selected |
| FlashSpan.SpanExact | src/common_uboot/cmd/flash.c:187-268 | a range from the start of a sector of one bank to the end of a sector of another is accepted only if banks in list order lead there without a gap; it then selects from the first sector on, all of the banks between, up to the last sector, nothing else, and counts them, if and only if it ends below the last address or no bank behind starts at 0 |
| FlashSpan.LengthSpanExact | src/common_uboot/cmd/flash.c:146-185 | the same for a start and a length that reaches into another bank |
| FlashSpan.StartOffBoundary | src/common_uboot/cmd/flash.c:255-258 | a start inside a bank that is no sector start is refused if and only if it lies below the last byte of the bank or the range ends with a sector; otherwise nothing is selected |
| FlashSpan.EndOffBoundary | src/common_uboot/cmd/flash.c:236-246 | an end inside a bank the range leads up to that is no sector end is refused as such |
| FlashRound.CoveredExactly | src/common_uboot/cmd/flash.c:187-268 | the addresses covered by the selection are exactly those from the first address to where it stops |
| FlashRound.RoundInBankMeans | src/common_uboot/cmd/flash.c:103-121 | rounding in one bank gives the end of the sector holding the address, or nothing outside the bank |
| FlashRound.RoundUpMeans | src/common_uboot/cmd/flash.c:91-127 | rounding succeeds exactly inside a bank and gives the end of the sector holding the address |
| FlashRound.RoundUpLeast | src/common_uboot/cmd/flash.c:91-127 | that is the least sector end not below the address |
| FlashRound.NeverMisaligned | src/common_uboot/cmd/flash.c:146-185 | after rounding, the selection never reports a misaligned end |
| FlashRound.PassOutside | src/common_uboot/cmd/flash.c:255-264 | a bank holding neither end of the range is passed over |
| FlashRound.ChooseExactly | src/common_uboot/cmd/flash.c:218-254 | a range from one sector start to one sector end of a bank chooses exactly those sectors |
| FlashRound.BehindOneBank | src/common_uboot/cmd/flash.c:203-265 | nothing is chosen behind the bank under the same condition |
| FlashRound.OneBankFrom | src/common_uboot/cmd/flash.c:203-265 | such a range leaves all other banks without a sector and is counted right, if and only if it ends below the last address or no bank behind starts at 0 |
| FlashRound.MeetsExactly | src/common_uboot/cmd/flash.c:223-226 | the sectors between first and last are exactly those that meet the range |
| FlashRound.LengthFormExact | src/common_uboot/cmd/flash.c:146-185 | start plus length from a sector start inside one bank selects exactly the sectors that meet the range, if and only if it ends below the last address or no bank behind starts at 0 |
| FlashRound.WrappedRequest | src/common_uboot/cmd/flash.c:203-254 | the request left over behind the top address selects nothing if and only if no bank starts at 0 |
| FlashRound.FillConcat | src/common_uboot/cmd/flash.c:203-265 | filling banks is filling the first of them and then the others from where the request goes on |
| FlashRound.TopBankExact | src/common_uboot/cmd/flash.c:252-254 | a selection that comes to a bank ending at the last address, wherever it is in the list, takes nothing from later banks if and only if none starts at 0 |
| FlashCode.ScanSectors | src/common_uboot/cmd/flash.c:218-234 | the sector loop computes the scan |
| FlashCode.JudgeBank | src/common_uboot/cmd/flash.c:210-264 | the case analysis for one bank |
| FlashCode.FillSectRanges | src/common_uboot/cmd/flash.c:187-268 | the bank loop fills both arrays and the count as specified, and fails exactly when specified |
| FlashCode.SectRoundb | src/common_uboot/cmd/flash.c:91-127 | the rounding loops compute the specified end |
| FlashCode.Flash.ProtectBank | src/common_uboot/cmd/flash.c:608-622 | exactly the chosen flags of one bank change |
| FlashCode.Flash.ProtectAll | src/common_uboot/cmd/flash.c:603-623 | exactly the chosen flags of all banks change |
| FlashCode.Flash.SectProtect | src/common_uboot/cmd/flash.c:589-636 | exactly the flags of the selected sectors change, in all banks, and none on failure |
| FlashCode.PickedIsCovered | src/common_uboot/cmd/flash.c:589-636 | a sector is among those chosen if and only if its start lies in a chosen range, whatever bank it is in |
| FlashCode.FlagsByAddress | src/common_uboot/cmd/flash.c:589-636 | by address: the flags that change are those of the sectors between the first address and where the run stops, in every bank |
| FlashCode.PicksFit | src/common_uboot/cmd/flash.c:187-268 | every chosen range is one of existing sectors of a known bank |
| Floppy.LocateIsRight | src/common_uboot/cmd/fdc.c:248-256 | track, head and sector computed for a block number denote that block, on an existing side |
| Floppy.SectorOnSide | src/common_uboot/cmd/fdc.c:248-256 | the sector within a side depends on the block number modulo the sectors of a side alone |
| Floppy.RetryIsBudget | src/common_uboot/cmd/fdc.c:467-489 | the two counters give up exactly when their combined budget is used up, and each error costs one |
| Floppy.CountersAreBudget | src/common_uboot/cmd/fdc.c:442-521 | two nested counters over a whole call forgive exactly as many errors as one counter of 24 |
| Floppy.NextAligned | src/common_uboot/cmd/fdc.c:497-507 | every piece after the first starts a side |
| Floppy.Transfer | src/common_uboot/cmd/fdc.c:452-493 | the bytes of the blocks are put behind the offset unless the transfer fails before the last one |
| Floppy.ReadPiece | src/common_uboot/cmd/fdc.c:442-493 | one read command stays on one side and, if it succeeds, extends the buffer by the right blocks |
| Floppy.ReadRetrying | src/common_uboot/cmd/fdc.c:442-493 | the command is repeated as often as the counters allow, overwriting what a failed attempt left |
| Floppy.FirstPiece | src/common_uboot/cmd/fdc.c:436-439 | the first piece ends with the side or the request |
| Floppy.ReadPieces | src/common_uboot/cmd/fdc.c:442-521 | piece after piece the buffer is the disk from the first block on |
| Floppy.ReadData | src/common_uboot/cmd/fdc.c:405-526 | success exactly when no more than 24 transfers fail, and then the buffer holds exactly the blocks asked for; every command stays within one side of one track |
| SrecFormat.RecordSum | src/common_uboot/cmd/load.c:337-355 | the bytes of every data record add up to 0xFF modulo 256 |
| SrecFormat.RecordBack | src/common_uboot/common/s_record.c:13-153 | decoding any record with the right length and check gives back kind, address and data |
| SrecFormat.DataRecordBack | src/common_uboot/common/s_record.c:13-153 | in particular every data record written |
| SrecFormat.AddressBack | src/common_uboot/common/s_record.c:85-128 | four address bytes are put together to the address they came from |
| SrecTransfer.HeaderBack | src/common_uboot/cmd/load.c:186-187 | the fixed header is a right record and is passed over |
| SrecTransfer.TrailerBack | src/common_uboot/cmd/load.c:172-185 | the fixed trailer is a right record and ends the load |
| SrecTransfer.OneRecord | src/common_uboot/cmd/load.c:141-171 | reading, decoding and storing one written record stores its bytes and extends the range |
| SrecTransfer.AllRecords | src/common_uboot/cmd/load.c:141-195 | loading all records of a stretch of memory stores all of it |
| SrecTransfer.SavedBack | src/common_uboot/cmd/load.c:128-198 | loading what was saved ends at entry 0 with the whole stretch stored |
| SrecTransfer.SaveLoad | src/common_uboot/cmd/load.c:128-198 | loading what was saved puts every byte at its address plus the offset, touches nothing else and reports the number of bytes |
| SrecTransfer.EmptySave | src/common_uboot/cmd/load.c:172-185 | saving nothing loads nothing and reports two bytes |
| SrecTransfer.WriteMeans | src/common_uboot/cmd/load.c:163-166 | what a stored stretch is and that nothing else changes |
| SrecTransfer.WriteCopies | src/common_uboot/cmd/load.c:163-166 | the same for all addresses at once |
| SrecLoad.BytesTaken | src/common_uboot/common/s_record.c:155-178 | bytes spelled in either case of hexadecimal digits are read back |
| SrecLoad.LineDecoded | src/common_uboot/common/s_record.c:13-153 | a line with a record of any kind (2 address bytes for 0, 1, 5 and 9, 3 for 2 and 8, 4 for 3 and 7), behind anything without an S, is decoded to kind, big-endian address and data if its bytes add up to 0xFF, and is invalid if not |
| SrecLoad.UnknownKind | src/common_uboot/common/s_record.c:81-83 | a record of any other kind is invalid |
| SrecLoad.StoreIsPlaced | src/common_uboot/cmd/load.c:149-171 | a data record is placed at its address plus offset, modulo 2^32, and everything else stays |
| SrecLoad.ItemLoaded | src/common_uboot/cmd/load.c:141-195 | one line with any line end: kinds 1, 2, 3 store and go on, 7, 8, 9 end with their address, 0 and 5 change nothing, a wrong sum fails |
| SrecLoad.FileLoaded | src/common_uboot/cmd/load.c:128-198 | a whole file of right records, with addresses of 16, 24 or 32 bits, loads every data record to its place and returns the address of the end record |
| SrecLoad.CorruptFails | src/common_uboot/cmd/load.c:144-146 | a record with a wrong sum fails the load, whatever was loaded before |
| SrecLoad.AbortFails | src/common_uboot/cmd/load.c:200-235 | so does a NUL or ^C in a line |
| SrecLoad.LongLineCut | src/common_uboot/cmd/load.c:200-235 | a line that does not fit the buffer is cut off there, and the rest of it is the next line |
| SrecLoad.CommentSkipped | src/common_uboot/cmd/load.c:141-146 | a line without an S is passed over |
| SrecCode.AddressSum | src/common_uboot/cmd/load.c:345-347 | the address part of the checksum |
| SrecCode.WriteDataRecord | src/common_uboot/cmd/load.c:337-355 | one record is printed with its check byte |
| SrecCode.FlushRecord | src/common_uboot/cmd/load.c:335-360 | a collected record is written and the address moves behind it |
| SrecCode.SaveSerial | src/common_uboot/cmd/load.c:313-366 | the byte loop writes header, records of at most 16 contiguous bytes, and trailer |
| SrecCode.ReadRecord | src/common_uboot/cmd/load.c:200-235 | one line is read, cut off when it is too long |
| SrecCode.LoadSerial | src/common_uboot/cmd/load.c:128-198 | the record loop gives the specified result for every text |
| EfiMap.CompareExact | src/common_uboot/cmd/efi.c:58-69 | the comparison has the sign of the address difference if and only if that is within -2^63 and 2^63 |
| EfiMap.BuildInPlace | src/common_uboot/cmd/efi.c:86-119 | the in-place loop never overwrites a descriptor it has not read: its result is the merge of the old contents, with the end mark behind it |
| EfiMap.SortedIsOrdered | src/common_uboot/cmd/efi.c:85-85 | sorted disjoint descriptors, empty ones included, are in address order without overlap |
| EfiMap.GrowExact | src/common_uboot/cmd/efi.c:108-109 | a merged descriptor grows by pages that lie right behind it, in exact integers |
| EfiMap.StepListing | src/common_uboot/cmd/efi.c:90-116 | one turn of the loop lists exactly the addresses of one more descriptor |
| EfiMap.MergeListing | src/common_uboot/cmd/efi.c:90-116 | merging keeps order and lists every address with the type it had |
| EfiMap.StepCompact | src/common_uboot/cmd/efi.c:98-113 | one turn of the loop leaves no two touching neighbours both conventional |
| EfiMap.MergeCompact | src/common_uboot/cmd/efi.c:98-113 | no two touching neighbours are both conventional afterwards |
| EfiMap.ShownByNumber | src/common_uboot/cmd/efi.c:51-56 | loader code and data, boot services code and data and conventional memory (1, 2, 3, 4, 7) are shown as 7, the first four as nothing else, every other type as itself |
| EfiMap.MergeEntries | src/common_uboot/cmd/efi.c:97-117 | every entry has start, virtual address and attributes of a reported descriptor, its type as it should be shown |
| EfiMap.MergePreserves | src/common_uboot/cmd/efi.c:71-122 | for every ordered map: order and types kept (1 to 4 and 7 listed as 7, every other type as itself), no touching conventional neighbours, virtual addresses and attributes as reported |
| EfiMap.NothingMerged | src/common_uboot/cmd/efi.c:99-100 | without skipping the table is the sorted map |
| EfiSort.Exchange | src/common_uboot/lib/qsort.c:54-59 | two elements change places and all elements stay |
| EfiSort.Step | src/common_uboot/lib/qsort.c:48-59 | two elements are exchanged exactly when the first compares greater |
| EfiSort.Sift | src/common_uboot/lib/qsort.c:43-60 | all elements stay, and with gap 1 a prefix in which none compares greater than the next grows by one |
| EfiSort.Pass | src/common_uboot/lib/qsort.c:41-62 | all elements stay, and after a pass with gap 1 none compares greater than the next |
| EfiSort.FirstGap | src/common_uboot/lib/qsort.c:32-37 | the first gap is on the ladder 1, 4, 13, ... and below the number of elements |
| EfiSort.InTurnSorted | src/common_uboot/cmd/efi.c:58-69 | where the comparison is right for all pairs, that is address order |
| EfiSort.Qsort | src/common_uboot/lib/qsort.c:22-66 | the result is a permutation in which no element compares greater than the next; it is sorted by address if no two addresses are 2^63 or more apart, and EfiExact.SortedExactly says that this is needed |
| EfiSort.SortedOrdered | src/common_uboot/cmd/efi.c:85-85 | a sorted permutation of separate descriptors is in order without overlap |
| EfiSort.BuildMemTable | src/common_uboot/cmd/efi.c:71-122 | the table is the merge of that permutation of the map, with the end mark behind it |
| EfiSort.TablePreserves | src/common_uboot/cmd/efi.c:71-122 | for descriptors without a common address, once sorted, every address keeps its type (1, 2, 3, 4 and 7 listed as 7, every other type as itself) and its entry the reported virtual address and attributes, the table is ordered and merged as far as possible, and without skipping it is the sorted map; EfiExact.TableExactly says when the sort sees to that |
| EfiExact.PairUnsorted | src/common_uboot/lib/qsort.c:22-66 | two descriptors more than 2^63 apart come out in the wrong order however they are arranged |
| EfiExact.SortedExactly | src/common_uboot/lib/qsort.c:22-66 | every list the sort may end with is in address order if and only if no two addresses are 2^63 or more apart |
| EfiExact.TopMergesWithBottom | src/common_uboot/cmd/efi.c:98-116 | conventional memory at the very top and at address 0 becomes one descriptor over the end of the address space, and address 0 is lost |
| EfiExact.LowerSpoils | src/common_uboot/cmd/efi.c:90-116 | a descriptor read behind one that starts above it leaves the table out of order, merged or not |
| EfiExact.TableExactly | src/common_uboot/cmd/efi.c:71-122 | for descriptors with pages and without a common address, the table is in order whatever list the sort ends with if and only if no two addresses are 2^63 or more apart |
| GptText.CutAt | src/common_uboot/cmd/gpt.c:106-111 | splitting at a delimiter loses nothing |
| GptText.HexFieldBack | src/common_uboot/cmd/gpt.c:504-530 | a printed byte count is read back as the number of blocks it came from |
| GptText.PartFields | src/common_uboot/cmd/gpt.c:95-122 | each key of a written partition is found with its value, whatever else (an '=' too) the values hold |
| GptText.NeverBootable | src/common_uboot/cmd/gpt.c:132-156 | no written partition is read as bootable |
| GptText.PartRead | src/common_uboot/cmd/gpt.c:446-537 | what any written partition without separators in its fields is read as, references replaced, or refused for |
| GptText.PartBack | src/common_uboot/cmd/gpt.c:446-537 | a written partition is read back but for the flag |
| GptText.CommaCutsName | src/common_uboot/cmd/gpt.c:95-122 | a name is read only up to a comma in it |
| GptFields.ValueFound | src/common_uboot/cmd/gpt.c:95-122 | the value of the first field with a key is found, wherever it is among the fields; a flag of that name hides the others |
| GptFields.FlagFound | src/common_uboot/cmd/gpt.c:132-156 | a flag is found wherever it is, and a field with a value is never taken for one |
| GptFields.AmountTaken | src/common_uboot/lib/strto.c:108-129 | a number in any base with K, k, M or G, alone or as KiB and the like, is read as that many bytes modulo 2^64 |
| GptFields.Expanded | src/common_uboot/cmd/gpt.c:36-83 | a value "${x}" stands for the variable x exactly if that is set, and every other text for itself |
| GptFields.TokenRead | src/common_uboot/cmd/gpt.c:445-537 | a partition written in its fields, in any order, is read as what was asked for: whole blocks of the sizes with their units, an open size or missing start as 0, name, uuid, and the bootable flag exactly if it is there |
| GptFields.TokenIncomplete | src/common_uboot/cmd/gpt.c:451-510 | without a name, a uuid or a size there is an error |
| GptFields.TokenTooLong | src/common_uboot/cmd/gpt.c:466-497 | a name of 32 characters or more and a uuid of 37 or more, references replaced, are refused |
| GptFields.ListRead | src/common_uboot/cmd/gpt.c:372-541 | a whole list that fits, with or without a semicolon at the end, is read as its disk GUID and those partitions |
| GptFields.ListErrors | src/common_uboot/cmd/gpt.c:400-425 | a missing disk GUID, a missing semicolon and an empty list are told apart |
| GptRoundTrip.ParsedCount | src/common_uboot/cmd/gpt.c:431-449 | the array counted out before the loop is filled exactly, for every text |
| GptRoundTrip.PartsBack | src/common_uboot/cmd/gpt.c:444-537 | a written list is read back partition by partition |
| GptRoundTrip.ReadOneByOne | src/common_uboot/cmd/gpt.c:444-537 | where no name holds a semicolon, each partition read is read from the text of one written |
| GptRoundTrip.DiskGuid | src/common_uboot/cmd/gpt.c:398-419 | the disk GUID is found although its token runs on into the first partition, whatever the name of that |
| GptRoundTrip.OverlongLoses | src/common_uboot/cmd/gpt.c:424-437 | a list longer than the reader looks at gives an error or another number of partitions |
| GptRoundTrip.FittingRead | src/common_uboot/cmd/gpt.c:372-543 | a list that fits is read with every reference replaced |
| GptRoundTrip.RoundTrip | src/common_uboot/cmd/gpt.c:372-543 | start, size, name, uuid and disk GUID come back, in order, if and only if the list fits |
| GptRename.NamedSwapped | src/common_uboot/cmd/gpt.c:714-723 | the two names change places in how often they occur |
| GptRename.BalancedLength | src/common_uboot/cmd/gpt.c:714-728 | a swap in pairs keeps the length of the list |
| GptRename.SwappedLength | src/common_uboot/cmd/gpt.c:714-728 | how the length of the list changes with how often the names occur |
| GptRename.SwapExact | src/common_uboot/cmd/gpt.c:650-778 | swap succeeds exactly for two different names of allowed length that occur equally often, and then hands over the table with both exchanged everywhere |
| GptRename.SwapTwice | src/common_uboot/cmd/gpt.c:708-778 | swapping twice hands over the table it started from, but for the flags |
| GptRename.SwapHandsOver | src/common_uboot/cmd/gpt.c:714-778 | the table handed over differs only in names if and only if no partition was bootable |
| GptRename.RefusedInside | src/common_uboot/cmd/gpt.c:489-500 | one name that is too long once references are replaced, anywhere in the list, makes the reader refuse it |
| GptRename.LongNameFails | src/common_uboot/cmd/gpt.c:731-769 | a rename to such a name is refused by the second reading |
| GptRename.RenameExact | src/common_uboot/cmd/gpt.c:729-778 | rename succeeds exactly for a number in use and a name of at most 31 characters after a reference to a set variable is replaced, and changes that one name in the list |
| GptRename.PlaceOf | src/common_uboot/cmd/gpt.c:320-333 | where in the list the partition of a number is |
| GptRename.RenameHandsOver | src/common_uboot/cmd/gpt.c:729-778 | the table handed over differs only in names if and only if no partition was bootable |
| GptRename.SemicolonAddsPartition | src/common_uboot/cmd/gpt.c:431-537 | every semicolon in a name adds a partition to a list that is read at all, so such a name never comes back |
| GptRename.RenameSeparated | src/common_uboot/cmd/gpt.c:729-778 | a semicolon in the new name makes rename hand over a table with that many more partitions; a comma makes it hand over the name in front of it |
| GptRename.RenamesItsOwn | src/common_uboot/cmd/gpt.c:735-753 | the entry renamed for a number is that partition if and only if no smaller number is unused |
| GptRename.GapRenamesAnother | src/common_uboot/cmd/gpt.c:735-753 | with number 1 unused, renaming 2 renames partition 3 |
| GptCode.Strsep | src/common_uboot/cmd/gpt.c:106-111 | the token runs up to the first delimiter |
| GptCode.ReadVal | src/common_uboot/cmd/gpt.c:95-122 | the token loop finds the value of the first such key, for every text |
| GptCode.HasKey | src/common_uboot/cmd/gpt.c:132-156 | the token loop finds a key that stands alone |
| GptCode.CountParts | src/common_uboot/cmd/gpt.c:431-437 | one more than the number of semicolons |
| GptCode.ReadNumber | src/common_uboot/lib/strto.c:108-129 | the falling-through suffixes multiply modulo 2^64 |
| GptCode.ReadEnv | src/common_uboot/cmd/gpt.c:36-83 | a reference to a set variable is replaced by its value, anything else stays |
| GptCode.ReadBlocks | src/common_uboot/cmd/gpt.c:516-517 | a byte count is read as blocks |
| GptCode.ReadPart | src/common_uboot/cmd/gpt.c:451-536 | one partition is read, or refused for the same fields |
| GptCode.ReadParts | src/common_uboot/cmd/gpt.c:431-537 | the counted loop reads every token, never running out early |
| GptCode.SetGptInfo | src/common_uboot/cmd/gpt.c:372-550 | the whole reader with its error returns, for every text |
| GptCode.DiskPartitions.constructor | src/common_uboot/cmd/gpt.c:306-342 | the list holds the partitions present, in the order of their numbers |
| GptCode.DiskPartitions.CreateList | src/common_uboot/cmd/gpt.c:265-300 | the appending loop writes the specified text |
| GptCode.DiskPartitions.SwapLoop | src/common_uboot/cmd/gpt.c:714-723 | both names are exchanged in place and counted |
| GptCode.DiskPartitions.RenameLoop | src/common_uboot/cmd/gpt.c:745-753 | exactly the entry at that place is renamed |
| GptCode.DiskPartitions.SwapCommand | src/common_uboot/cmd/gpt.c:650-778 | the command's outcome and list are as specified |
| GptCode.DiskPartitions.RenameCommand | src/common_uboot/cmd/gpt.c:650-778 | the command's outcome and list are as specified |
| OneNand.LayOutConcat | src/common_uboot/cmd/onenand.c:132-184 | two writes, the second where the first ended, are one write of both |
| OneNand.LayOutFrame | src/common_uboot/cmd/onenand.c:132-184 | bad blocks, blocks in front of the first one written and blocks behind the last are not touched |
| OneNand.LayOutAt | src/common_uboot/cmd/onenand.c:132-184 | each good block from the first to the last one written holds the block of data with its number, and reading takes them in that order |
| OneNand.ReadBack | src/common_uboot/cmd/onenand.c:61-106 | reading from where data was written returns it |
| OneNand.Driver.constructor | src/common_uboot/cmd/onenand.c:24-25 | nothing skipped at first |
| OneNand.Driver.BlockWrite | src/common_uboot/cmd/onenand.c:132-184 | the loop writes the good blocks and leaves both offsets as specified |
| OneNand.Driver.BlockRead | src/common_uboot/cmd/onenand.c:61-106 | the loop reads the good blocks |
| OneNand.ContinuesBehind | src/common_uboot/cmd/onenand.c:148-155 | the next chunk of a stream starts exactly behind the last block written |
| OneNand.RoomSplits | src/common_uboot/cmd/onenand.c:157-181 | good blocks for two chunks are good blocks for one behind the other |
| OneNand.SkipBad | src/common_uboot/cmd/onenand.c:157-181 | jumping over bad blocks changes nothing |
| OneNand.GoodBlockDiffers | src/common_uboot/cmd/onenand.c:148-155 | jumping over a good block leaves it with what it held |
| OneNand.StreamIsOneWrite | src/common_uboot/cmd/onenand.c:132-184 | however a stream is cut into chunks, the device ends up as after one write of the whole |
| OneNand.StreamReadBack | src/common_uboot/cmd/onenand.c:61-184 | reading from the first offset returns the whole stream, unless the first write met a skip left over from another one |
| OneNand.LandsWhereAsked | src/common_uboot/cmd/onenand.c:148-155 | a stream is laid out from the offset asked for, whatever the device held, if and only if only bad blocks are jumped over |
| FooterChecksum.ComputeCrc | src/common_uboot/cmd/armflash.c:37-56 | the carry loop computes the checksum of the words, or 0 for a length that is no multiple of four |
| FooterChecksum.AddResidue | src/common_uboot/cmd/armflash.c:50-53 | adding with end-around carry is addition modulo 2^32 - 1, zero kept apart from all ones |
| FooterChecksum.SumIsResidue | src/common_uboot/cmd/armflash.c:47-54 | the sum is the total modulo 2^32 - 1, zero only if all words are zero |
| FooterChecksum.OrderIrrelevant | src/common_uboot/cmd/armflash.c:37-56 | the checksum depends only on the multiset of words |
| FooterChecksum.InverseMakesZero | src/common_uboot/cmd/armflash.c:136-144 | inserting the checksum of the other words at any position makes the checksum zero |
| FooterChecksum.ChangeDetected | src/common_uboot/cmd/armflash.c:136-144 | changing one word keeps the checksum if and only if it is a change between 0 and all ones beside a word that is not zero |
| FooterChecksum.TotalZero | src/common_uboot/cmd/armflash.c:47-54 | the total is zero exactly when every word is |
| EnvLookup.EnvMatch | src/common_uboot/cmd/nvedit.c:764-777 | the position of the value if the entry has that name, else -1 |
| EnvLookup.CopyOut | src/common_uboot/cmd/nvedit.c:698-714 | the value is copied with its length, or cut off to the buffer |
| EnvLookup.CopyMeans | src/common_uboot/cmd/nvedit.c:698-714 | the buffer is never overrun and always ends with a NUL, and the number returned tells whether the value was cut off |
| EnvLookup.SkipString | src/common_uboot/cmd/nvedit.c:687-692 | the scan stops at the end of the entry, or reports that it ran over the environment |
| EnvLookup.EnvGetF | src/common_uboot/cmd/nvedit.c:680-718 | over every well-formed block the result is that of a first-match search of the decoded list: value and length, or -1 exactly when no entry has that name |

## Left out

- UART, interrupt controller, private timer and CPU register code of chapters 4 to 8: register access with no state beyond it; the tick is a step of the scheduler model.
- Command dispatch, argument counting, printing, console echo, delays, watchdog calls and console hang-up checks.
- Wrappers over libraries whose logic lives elsewhere (avb, mmc, file systems, network, dfu, fastboot, nvme, hash, aes, lzmadec, bootm, bootefi).
- Kermit: the words for the receiver's progress that are only printed (`k_state` outside the packet type) and Y-modem loading.
- KermitDelivery.Delivery: damage that passes the check characters is not among the events, because no receiver can tell it from a correct packet, nor is a ^C between packets, which ends the transfer (`AbortEnds`); damage with a start mark in it is more than one event. Runs with a harmful altered number are excluded, because the property fails there (`PacketTwice`).
- Flash-write branch of S-record loading, and its baud-rate changes.
- SrecCode.LoadSerial: a data record whose length field is shorter than its address has no defined effect in the model, because the C code then copies a negative length.
- Scheduler.NeverLate: says nothing of the first run of a task if the scan begins at tick 2^32 - 10E or later, because it may be late there (`LateFirstRun`).
- `mtdparts_init`, saving to the environment, `mtdids` parsing, `spread_partition`, names generated from size and offset, and the length limits of the printed text.
- MtdDevice.PartValidateEraseblock: a uniform device with erase size 0 is not modelled, because the division does not return.
- MtdTable.InsertionTracks: for fewer than 256 partitions, because the current index is 8 bits wide.
- `flash_sect_erase` and bank:sector specifications (`abbrev_spec`): they use the same ranges and would only repeat `SectProtect`.
- Floppy: seek, recalibration and command failures, which end the call at once; the device is taken to keep answering, so time-outs are not modelled.
- OneNAND: write and read failures other than bad blocks, and writing with out-of-band data; offsets are counted in blocks.
- OneNand.Driver.BlockWrite: needs enough good blocks behind the offset, because the C loop does not end otherwise.
- EfiSort.Qsort: elements are exchanged whole rather than byte by byte.
- GPT: random UUIDs, type GUIDs, reading partition numbers from text, the write and read back of the table itself, and the size of the list buffer. A name is a string rather than a 32-byte field.
- GptRename.RenameExact: for a new name without separators, because with one the name does not come back; `RenameSeparated` says what does.
- EnvLookup.EnvGetF: for well-formed blocks that fit the environment; errors of the storage below `env_get_char` are not modelled.
- `api_storage.c`, keyword tables, SPD and MII dumps, help text.
- Memory allocation failures, freeing, and pointer lifetime.
