# Firmware upgrade and host/slave ring: a verified model

Two subsystems are modelled and proved.

**Firmware upgrade over NOR flash** (`common/mcumgr_qcom/src`). The flash is a byte sequence: an erase sets 4096-byte
blocks to 0xFF, a write programs by bitwise AND, and both may fail part-way. On top of it stand the descriptor table with
its three slots of thirty entries (`Descriptor`), the slot scan and the space arithmetic (`SlotSelection`), the partition
layer with its pool of ten handles (`UpgradeMem`), and the packet-driven upgrade session (`UpgradeSession`). The session is
proved against a reference machine that is fed one byte at a time (`UpgradeSpec`); what the machine keeps is in
`SessionInvariant`, `ImageInvariant` and `Completion`, and that packets and chunks amount to their bytes is in
`PacketBoundaries`, `ChunkOperations`, `ConfigPieces` and `WholeUpload`. `Formats` writes the stored formats out byte by byte. `Upload` is the command handler in front of the
session. `Lifecycle`, `FlashLayout`, `LayoutHistory`, `DeviceLife` and `FileSystems` carry the results over whole histories of
upgrades, acceptances, rejections, power cuts and reboots. `SampleDevice` holds concrete devices and uploads: those that meet all
that is assumed, and those on which the code does not do what is wanted; `SampleRings` does the same for the ring.

**Host/slave ring over SPI memory** (`qcspi_app/qcc730_host/Service`). `Qcspi` builds byte access out of aligned word
transfers that may fail half-done. `RingTx` and `RingRx` are the host's two sides of a descriptor ring over that memory;
the slave is an environment step, taken before every transfer, that respects the ownership of indices and slots and may do
anything else.

Every flash operation of a session is checked against a guard: which cells the session may touch, and what must hold whenever
the slot's status byte reads VALID (from the start if it did not before, else once the old descriptor is erased). The guard lives in `NorFlash.Flash`
together with the list of all contents the flash has had, so "after every operation" is a statement about that list. NOR
compatibility is a precondition of `Flash.Write`: each call site proves that its write only clears bits.

Where code and promise differ, the code is modelled, and the difference is stated:

- The session's end ignores whether the status write succeeded, and does not give back the handle on an SBL entry
  (`UpgradeSession.Session.SessionFinalize`).
- A restart in the middle of an image keeps the old context's handle taken (`UpgradeSession.Session.SessionInit`). The ninth such
  restart since boot leaves a single free handle (`Upload.Handler.HandlesSufficeExactlyWhen`), with which the image-set walk sees
  only the first entry (`UpgradeMem.Mem.GetImageSetEndAddr`), and the region may be the wrong one
  (`SlotSelection.OneHandleSelectsExactlyWhen`) and cover golden images (`SampleDevice.OneHandleReachesGolden`).
- An erase of the descriptor of a valid slot, cut off, may leave the slot bootable with nothing listed
  (`LayoutHistory.TornEraseKeepsLayoutExactlyWhen`, `LayoutHistory.EntriesLostStillBoots`).
- An empty image at the end of a configuration is never reached, so such an upload never completes
  (`WholeUpload.UploadCompletesExactlyWhen`, `SampleDevice.EmptyUploadNeverEnds`).
- Accepting with no accepted slot retires slot 0, which may be the one accepted
  (`Lifecycle.AcceptKeepsFallbackExactlyWhen`).
- A power cut in the middle of writing a rank that ends in 0xFE may leave the largest rank there is, after which the next
  acceptance leaves nothing to fall back to (`Lifecycle.TornRankExhaustsExactlyWhen`, `Lifecycle.TornRankLosesEverything`).
- A configuration may list the first file system twice; the second one is programmed onto cells that are not erased
  (`ImageInvariant.FirstFsStoredExactlyWhen`, `ImageInvariant.SecondFirstFsGarbled`).
- A configuration may list the SBL twice; only the last one's size is checked (`WholeUpload.EarlierSblUnchecked`).
- With an odd number of blocks, slot 0 reaching into the last block makes the region's size wrap around
  (`FlashLayout.RegionInsideExactlyWhen`, `SampleDevice.LastBlockWraps`).
- A configuration without a first file system installs a slot from which no further upgrade starts
  (`FileSystems.InstalledUpgradesExactlyWhen`, `SampleDevice.NoUpgradeAfterThat`).
- A failing descriptor clear that took effect, or a packet of length 0, blocks the receive ring (`RingRx.Receiver.Receive`,
  `SampleRings.EmptyPacketBlocks`); lengths on the transmit ring travel modulo 65536 (`RingTx.Transmitter.WholeExactlyWhen`,
  `SampleRings.LongPacketIsCut`).

## Model

| member | source | states |
|---|---|---|
| `NorFlash.Flash.Erase` | common/mcumgr_qcom/src/flash_adapter.c:155-176 | erasing sets whole blocks to 0xFF and nothing else; a failing erase leaves each cell of its range as it was or erased; every operation keeps the crash-safety guard of the session and is recorded |
| `NorFlash.Flash.Write` | common/mcumgr_qcom/src/flash_adapter.c:129-153 | programming is a bitwise AND, and is required at every call site to need no bit set; a failed write leaves each cell of its own range as it was or programmed, and no other touched |
| `NorFlash.AndIsBitwise` | common/mcumgr_qcom/src/flash_adapter.c:129-153 | a programmed byte has exactly the bits set that were set in the cell and are set in the data |
| `NorFlash.StoredExactlyWhen` | common/mcumgr_qcom/src/flash_adapter.c:129-153 | a byte can be programmed onto another exactly when it sets no bit that is clear there |
| `NorFlash.ProgrammedIsSpliced` | common/mcumgr_qcom/src/fw_upgrade_mem.c:496-548 | a write that only clears bits stores exactly the data |
| `Formats.DescriptorReadsBack` | common/mcumgr_qcom/src/fw_upgrade_mem.c:60-81 | header fields and entries written out byte by byte as the descriptor has them are what is read from a slot, for all values |
| `Formats.BootableExactlyWhen` | common/mcumgr_qcom/src/fw_upgrade_mem.c:899-904 | a slot counts as bootable exactly when its first bytes are FWDT, its status is 1 and its image count is neither 0 nor 255 |
| `Formats.ImageSetKnownExactlyWhen` | common/mcumgr_qcom/src/fw_upgrade_mem.c:279-314 | the end of a slot's image set is known exactly when its first bytes are FWDT and its image count is not 0 |
| `Descriptor.AppendEntry` | common/mcumgr_qcom/src/fw_upgrade_mem.c:980-1010 | programming an entry into the first unused place only clears bits and appends exactly that entry, so start, size and version read back unchanged through the block scaling |
| `Descriptor.FindInTable` | common/mcumgr_qcom/src/fw_upgrade_mem.c:1135-1193 | looking an id up in a slot finds the first entry of the slot's table with that id, and fails exactly when there is none |
| `Descriptor.SameFind` | common/mcumgr_qcom/src/fw_upgrade_mem.c:1135-1193 | what is read from a descriptor depends on its own 512 bytes only |
| `Descriptor.SameLookup` | common/mcumgr_qcom/src/fw_upgrade_mem.c:1135-1193 | a lookup depends on the slot's entries only, not on its header |
| `Descriptor.FirstUnused` | common/mcumgr_qcom/src/fw_upgrade_mem.c:964-986 | used entries form a prefix: the search for a free place stops right behind the last used one |
| `UpgradeMem.Mem.GetPartitionClientEntry` | common/mcumgr_qcom/src/fw_upgrade_mem.c:163-181 | returns the first free handle, and none exactly when all are taken |
| `UpgradeMem.Mem.FindPartition` | common/mcumgr_qcom/src/fw_upgrade_mem.c:1135-1193 | succeeds exactly when the slot has the id and a handle is free; takes that one handle and no other |
| `UpgradeMem.Mem.FirstPartition` | common/mcumgr_qcom/src/fw_upgrade_mem.c:1021-1072 | takes a handle for entry 0, exactly when the slot is in range, has images and a handle is free |
| `UpgradeMem.Mem.NextPartition` | common/mcumgr_qcom/src/fw_upgrade_mem.c:1074-1133 | refuses an invalid handle; otherwise takes a handle for the following entry, exactly when it is used and a handle is free |
| `UpgradeMem.Mem.CreatePartition` | common/mcumgr_qcom/src/fw_upgrade_mem.c:937-1019 | appends the entry and takes a handle for it; fails without a trace when the slot is full, the entry unaligned or the pool empty, with the invalid-parameter code exactly for a slot out of range or an unaligned entry |
| `UpgradeMem.Mem.ErasePartition` | common/mcumgr_qcom/src/fw_upgrade_mem.c:1321-1357 | erases exactly the named blocks; refuses exactly an empty or unaligned range or one whose end, in 32 bits, is beyond the size; other partitions' cells are untouched |
| `UpgradeMem.Mem.WritePartition` | common/mcumgr_qcom/src/fw_upgrade_mem.c:1359-1402 | programs exactly the named bytes; refuses exactly an empty range or one whose end, in 32 bits, is beyond the partition's |
| `UpgradeMem.Mem.ReadPartition` | common/mcumgr_qcom/src/fw_upgrade_mem.c:1404-1433 | returns the bytes of a flash partition, refusing the same ranges as a write; of an SBL partition it returns as many bytes, or fails |
| `UpgradeMem.Mem.SetFwdInfo` | common/mcumgr_qcom/src/fw_upgrade_mem.c:496-548 | programs one header field; only bits are cleared |
| `UpgradeMem.Mem.EraseFwd` | common/mcumgr_qcom/src/fw_upgrade_mem.c:420-443 | erases the descriptor block of one slot; cut off, it leaves each cell as it was or erased |
| `SlotSelection.CurrentHasHighestRank` | common/mcumgr_qcom/src/fw_upgrade_mem.c:849-921 | the scan's current slot is the first bootable non-trial slot of highest rank, or 0 when none is above the start value; a trial slot, the last one, is reported exactly when there is one |
| `UpgradeMem.Mem.GetTrialActiveFwdIndex` | common/mcumgr_qcom/src/fw_upgrade_mem.c:849-921 | the scanning loop computes the specification's scan |
| `SlotSelection.WalkEndOverTable` | common/mcumgr_qcom/src/fw_upgrade_mem.c:279-314 | the walk visits every used entry once: its result bounds all non-SBL ends and is one of them |
| `SlotSelection.ImageSetEndIsMaximum` | common/mcumgr_qcom/src/fw_upgrade_mem.c:279-314 | the end of an image set is the maximum of start + size over its non-SBL entries |
| `UpgradeMem.Mem.GetImageSetEndAddr` | common/mcumgr_qcom/src/fw_upgrade_mem.c:279-314 | with two free handles the first/next walk returns that maximum, with a single one only the first entry's end, with none nothing; the pool is left as found |
| `UpgradeMem.Mem.Walk` | common/mcumgr_qcom/src/fw_upgrade_mem.c:279-314 | the loop with its hand-over of handles refines the walk over the entries |
| `UpgradeMem.Mem.GetFirstProgrammingImageStartAddress` | common/mcumgr_qcom/src/fw_upgrade_mem.c:218-277 | end of the last reserved partition of the running slot, past the descriptors; an empty pool hides the partitions; the pool is left as found |
| `SlotSelection.ReservedEndIsMaximum` | common/mcumgr_qcom/src/fw_upgrade_mem.c:218-277 | that end is the largest of the ends of the four reserved partitions that are found and of the descriptors' end |
| `UpgradeMem.Mem.SelectTrialFwd` | common/mcumgr_qcom/src/fw_upgrade_mem.c:745-799 | slot and region for the next upgrade in both modes, in 32-bit arithmetic, for any number of free handles; with two of them the intended selection; the pool is left as found |
| `SlotSelection.OneHandleSelectsExactlyWhen` | common/mcumgr_qcom/src/fw_upgrade_mem.c:279-314 | with one free handle the selection is the intended one exactly when the images of slot 0 are not looked at, end with its first entry, or, with two slots, neither end reaches into the upper half |
| `SlotSelection.NoHandleSelects` | common/mcumgr_qcom/src/fw_upgrade_mem.c:745-799 | without a handle a slot is selected exactly when it is slot 0 of two |
| `SampleDevice.OneHandleReachesGolden` | common/mcumgr_qcom/src/fw_upgrade_mem.c:787-797 | concrete case: on a laid-out golden device the region starts below the end of the golden images, and covers the application, exactly when one handle is free; with none there is no region |
| `UpgradeMem.Mem.AcceptTrialFwd` | common/mcumgr_qcom/src/fw_upgrade_mem.c:679-709 | gives the trial slot the top rank, then retires the old current slot; whatever a failing or torn write leaves, at the end and at every point in between, is part of the rank or the whole acceptance |
| `UpgradeMem.Mem.RejectTrialFwd` | common/mcumgr_qcom/src/fw_upgrade_mem.c:711-743 | retires the trial slot and takes its trial rank away; with an SBL entry the boot loader's table is updated too, which may fail, and a handle is lost; whatever a failing or torn write leaves is nothing, or the status and part of the rank |
| `Lifecycle.AcceptedHeaders` | common/mcumgr_qcom/src/fw_upgrade_mem.c:679-709 | after an acceptance the accepted slot's rank is the top rank plus one, in 32 bits, the old current slot's status is 0 unless it is the golden one, and no other header field has changed |
| `Lifecycle.RejectedHeaders` | common/mcumgr_qcom/src/fw_upgrade_mem.c:711-743 | after a rejection the slot's status is 0 and its rank 1, and no other header field has changed |
| `Lifecycle.FallbackAlways` | common/mcumgr_qcom/src/fw_upgrade_mem.c:679-743 | over any sequence of begun, described, committed, abandoned, torn, accepted, rejected and rebooted upgrades, acceptances and rejections cut off anywhere included, there is a bootable accepted slot, or the golden one |
| `Lifecycle.NextKeepsInv` | common/mcumgr_qcom/src/fw_upgrade_mem.c:679-799 | every single event keeps that, including a power cut between or within the two writes of an acceptance; all but a whole acceptance on two slots do so whatever the ranks |
| `Lifecycle.GoldenForever` | common/mcumgr_qcom/src/fw_upgrade_mem.c:745-799 | the golden slot's header never changes |
| `Lifecycle.NextSpares` | common/mcumgr_qcom/src/fw_upgrade_mem.c:745-799 | no event rewrites the running slot: at most its rank and status change |
| `Lifecycle.AcceptedOutranks` | common/mcumgr_qcom/src/fw_upgrade_mem.c:679-709 | after an acceptance, complete or cut off, even with only part of its rank written, the accepted slot is current and outranks every other bootable one |
| `Lifecycle.RejectedDoesNotBoot` | common/mcumgr_qcom/src/fw_upgrade_mem.c:711-743 | a rejected slot does not boot, even when the rejection is cut off |
| `Lifecycle.RanksSufficeWhen` | common/mcumgr_qcom/src/fw_upgrade_mem.c:692-694 | over any run without a torn rank, the ranks last if the first top rank and the number of ranks given do not exceed 0xFFFFFFFE |
| `Lifecycle.TornRankExhaustsExactlyWhen` | common/mcumgr_qcom/src/fw_upgrade_mem.c:692-694 | a rank cut off in the middle of its write can leave no room for another exactly when the new rank ends in the byte 0xFE |
| `Lifecycle.TornRankLosesEverything` | common/mcumgr_qcom/src/fw_upgrade_mem.c:692-699 | concrete case: new rank 0xFE, of which only the first byte is written; the next upgrade, once accepted, leaves nothing to fall back to, and once rejected nothing that boots |
| `Lifecycle.StaysOutUntilRewritten` | common/mcumgr_qcom/src/fw_upgrade_mem.c:711-743 | over any run, an unbootable slot is chosen neither as current nor as trial until an upgrade rewrites it |
| `Lifecycle.AcceptKeepsFallbackExactlyWhen` | common/mcumgr_qcom/src/fw_upgrade_mem.c:679-709 | with two slots an acceptance leaves something to fall back to exactly when the slot it retires is not the one accepted and the rank has room |
| `Lifecycle.AcceptingWithoutCurrentLosesEverything` | common/mcumgr_qcom/src/fw_upgrade_mem.c:857-857 | concrete case: slot 0 on trial and no accepted slot; the defaulted current slot 0 is retired |
| `Lifecycle.AcceptedIsAccept` | common/mcumgr_qcom/src/fw_upgrade_mem.c:679-709 | the flash after the two writes of an acceptance is that of the life cycle's event |
| `Lifecycle.RejectedIsReject` | common/mcumgr_qcom/src/fw_upgrade_mem.c:711-743 | the flash after the two writes of a rejection is that of the life cycle's event |
| `Lifecycle.TornIsAcceptTorn` | common/mcumgr_qcom/src/fw_upgrade_mem.c:679-709 | whatever is left of the rank write of an acceptance that was cut off is the torn event, with the rank that can be read |
| `Lifecycle.TornIsRejectTorn` | common/mcumgr_qcom/src/fw_upgrade_mem.c:711-743 | likewise for the rank write of a rejection |
| `Lifecycle.PromotedIsAcceptInterrupted` | common/mcumgr_qcom/src/fw_upgrade_mem.c:679-709 | so is the flash between the two writes of an acceptance |
| `UpgradeSpec.ConsumeAppend` | common/mcumgr_qcom/src/fw_upgrade.c:1189-1667 | the byte-at-a-time reference machine does not see packet boundaries |
| `Formats.ConfigReadsBack` | common/mcumgr_qcom/include/fw_upgrade.h:73-93 | a configuration head, image headers and hash written out byte by byte are read back field by field, for all values |
| `Formats.ConfigVerdict` | common/mcumgr_qcom/src/fw_upgrade.c:423-622 | what becomes of a session handed a whole configuration, in terms of the fields of its headers: which is accepted, and the code that each refusal has |
| `PacketBoundaries.ConfigPieceIsItsBytes` | common/mcumgr_qcom/src/fw_upgrade.c:417-483 | a piece of a well-formed configuration is collected exactly as its bytes one by one |
| `PacketBoundaries.BadHeadFails` | common/mcumgr_qcom/src/fw_upgrade.c:423-455 | a first piece with a bad head fails, whatever follows it |
| `PacketBoundaries.ChunkIsItsBytes` | common/mcumgr_qcom/src/fw_upgrade.c:912-1035 | storing a chunk of an image has the effect of its bytes one by one, with blocks erased just in time |
| `PacketBoundaries.OpeningIsPartOfTheNextByte` | common/mcumgr_qcom/src/fw_upgrade.c:821-907 | opening partitions early or with the next byte comes to the same |
| `ChunkOperations.BlockNumbers` | common/mcumgr_qcom/src/fw_upgrade.c:930-948 | the block numbers the code computes are the boundaries after the chunk's first and last byte |
| `ChunkOperations.ChunkInThreeSteps` | common/mcumgr_qcom/src/fw_upgrade.c:930-1029 | erase what the chunk reaches into, program it, erase the next block if it ends on a boundary: the same flash as byte by byte |
| `ChunkOperations.ChunkOntoBlank` | common/mcumgr_qcom/src/fw_upgrade.c:930-965 | every chunk is programmed onto erased cells only |
| `ImageInvariant.BytePutKeeps` | common/mcumgr_qcom/src/fw_upgrade.c:912-1029 | each byte goes onto an erased cell, no erase touches a byte already written, and nothing leaves the partition |
| `ImageInvariant.PutKeeps` | common/mcumgr_qcom/src/fw_upgrade.c:912-1029 | each byte keeps: frame, descriptor table, completed images, the open image's prefix and the erased cells before it |
| `ImageInvariant.FirstFsStoredExactlyWhen` | common/mcumgr_qcom/src/fw_upgrade.c:838-859 | the first block of a first file system is programmed without an erase, and stored as given exactly when it clears bits only of what is there |
| `ImageInvariant.SecondFirstFsGarbled` | common/mcumgr_qcom/src/fw_upgrade.c:554-606 | so the second of two first file systems in one configuration, which the header checks let through, is not when any of its bits is set that is clear in the first one |
| `ImageInvariant.OpenKeeps` | common/mcumgr_qcom/src/fw_upgrade.c:821-911 | opening the next image keeps that invariant; images lie one after the other inside the region |
| `ImageInvariant.AdvanceKeeps` | common/mcumgr_qcom/src/fw_upgrade.c:967-1018 | a complete image with the right digest is in place and stays so |
| `Completion.CheckedIsSane` | common/mcumgr_qcom/src/fw_upgrade.c:554-622 | a configuration that passes the header checks fits into the selected region, image by image |
| `Completion.DescribedKeeps` | common/mcumgr_qcom/src/fw_upgrade.c:505-535 | magic, version and image count are programmed onto erased bytes, read back exactly, and leave status and rank erased |
| `Completion.CopyBlocksCopies` | common/mcumgr_qcom/src/fw_upgrade.c:1067-1091 | the copy loop reproduces the source in the destination and changes nothing else |
| `Completion.FinishInstalls` | common/mcumgr_qcom/src/fw_upgrade.c:1641-1659 | after the last image the session finishes exactly when the first file system fits the second, and fails with the erase code otherwise; then the slot is completely installed: its configuration passed every check, and all images are in place |
| `Completion.StepKeeps` | common/mcumgr_qcom/src/fw_upgrade.c:1233-1661 | every byte keeps the session invariant |
| `Completion.ConsumeKeeps` | common/mcumgr_qcom/src/fw_upgrade.c:1189-1667 | so does any sequence of bytes |
| `SessionInvariant.BeginEstablishes` | common/mcumgr_qcom/src/fw_upgrade.c:1244-1424 | a session that gets past its start has an erased scratch file system and exactly the hidden entries in its slot |
| `ConfigPieces.PieceFacts` | common/mcumgr_qcom/src/fw_upgrade.c:397-483 | what one packet does to a configuration half collected: refusal, growth or completion, and what is left of the packet |
| `ConfigPieces.TallyIsSums` | common/mcumgr_qcom/src/fw_upgrade.c:554-622 | the header loop's running sums equal the space check's |
| `ConfigPieces.VerdictFromTally` | common/mcumgr_qcom/src/fw_upgrade.c:554-622 | the order of the header checks gives the specified verdict |
| `UpgradeSession.Session.SessionProcess` | common/mcumgr_qcom/src/fw_upgrade.c:1189-1667 | every packet terminates; unless the flash faulted, the session is where the reference machine is after the packet's bytes, with the same error code; at every flash operation only the session's areas have changed and the slot reads as valid only if completely installed; of the handles, a restart loses the one held, a finish the one on an SBL entry, and nothing else is lost; after a failure none is held unless the flash faulted or a scratch partition is empty |
| `UpgradeSession.Session.RestingHolds` | common/mcumgr_qcom/src/fw_upgrade.c:821-911 | between packets the session holds a handle exactly while an image is open |
| `UpgradeSession.Session.RunPacket` | common/mcumgr_qcom/src/fw_upgrade.c:1233-1661 | the state loop stops: unread bytes, then state rank decrease; at RECEIVE_DATA the offset is 0 or the packet length |
| `UpgradeSession.Session.Dispatch` | common/mcumgr_qcom/src/fw_upgrade.c:1241-1659 | one round keeps what the reference machine makes of the rest of the packet |
| `UpgradeSession.Session.ProcessConfigFile` | common/mcumgr_qcom/src/fw_upgrade.c:397-660 | collecting, digest, header checks and description of the slot refine the reference machine |
| `UpgradeSession.Session.CheckImageHeaders` | common/mcumgr_qcom/src/fw_upgrade.c:554-622 | the header loop and the space, SBL and length checks give the specified verdict |
| `UpgradeSession.Session.DescribeSlot` | common/mcumgr_qcom/src/fw_upgrade.c:505-535 | writes magic, version and image count |
| `UpgradeSession.Session.ProcessReceiveImage` | common/mcumgr_qcom/src/fw_upgrade.c:782-1042 | the image loop over a packet refines the reference machine and stops, by unread bytes and images left |
| `UpgradeSession.Session.OpenNextImage` | common/mcumgr_qcom/src/fw_upgrade.c:821-911 | creates the partition of the next image where the specification places it; an empty image is complete at once |
| `UpgradeSession.Session.StoreChunk` | common/mcumgr_qcom/src/fw_upgrade.c:927-965 | digest, erase and write of a chunk |
| `UpgradeSession.Session.FinishChunk` | common/mcumgr_qcom/src/fw_upgrade.c:967-1029 | digest check and hand-over at the end of an image, erase ahead inside it |
| `UpgradeSession.Session.CompleteImage` | common/mcumgr_qcom/src/fw_upgrade.c:718-777 | the digest over exactly the image's bytes decides; a mismatch gives the handle back and fails |
| `UpgradeSession.Session.ProcessDuplicateFs` | common/mcumgr_qcom/src/fw_upgrade.c:1047-1107 | copies the running first file system over the second, gives both handles back, and leaves the slot ready to commit; with fewer than two free handles it fails before touching the flash, so no such session completes |
| `UpgradeSession.Session.SessionFinalize` | common/mcumgr_qcom/src/fw_upgrade.c:1672-1739 | the status byte is the last write, its result is not looked at, and whenever it reads valid the slot is completely installed; one handle is lost exactly when the slot has an SBL entry |
| `UpgradeSession.Session.SessionInit` | common/mcumgr_qcom/src/fw_upgrade.c:249-345 | a restart gets a fresh context; it loses one handle exactly when the old one held one |
| `UpgradeSession.Session.GetTrialInfo` | common/mcumgr_qcom/src/fw_upgrade.c:1248-1271 | refuses when no slot can be selected or the selected one is running |
| `UpgradeSession.Session.EraseDescriptor` | common/mcumgr_qcom/src/fw_upgrade.c:1273-1285 | erases the slot's descriptor; cut off, it has touched nothing else, and the slot reads as valid at most if it did before |
| `UpgradeSession.Session.EraseSecond` | common/mcumgr_qcom/src/fw_upgrade.c:1287-1318 | erases the running slot's second file system |
| `UpgradeSession.Session.Prepare` | common/mcumgr_qcom/src/fw_upgrade.c:1320-1424 | lists the file system, RAM dump and user data partitions in the slot, erasing the RAM dump if in use |
| `WholeUpload.PacketsAreTheirBytes` | common/mcumgr_qcom/src/fw_upgrade.c:1189-1667 | any split into non-empty packets, the first of at least 17 bytes, ends as the stream byte by byte |
| `WholeUpload.PacketBoundariesDoNotMatter` | common/mcumgr_qcom/src/fw_upgrade.c:1189-1667 | two splits of one stream give the same flash, descriptor table and outcome |
| `WholeUpload.ProcessAll` | common/mcumgr_qcom/src/fw_upgrade.c:1189-1667 | a session handed the packets one after the other leaves the flash, and fails with the code, that the whole stream in one packet does; however it ends, at most one of the handles free before is not free after it |
| `WholeUpload.UploadCompletesExactlyWhen` | common/mcumgr_qcom/src/fw_upgrade.c:802-911 | a valid upload is installed, payload by payload, exactly when its last image is not empty |
| `SampleDevice.EmptyUploadNeverEnds` | common/mcumgr_qcom/src/fw_upgrade.c:802-808 | concrete case: a valid upload of one empty image, after which the session still waits |
| `WholeUpload.InstalledTableIsComplete` | common/mcumgr_qcom/src/fw_upgrade.c:529-538 | at the end the slot's entries number exactly the stored image count, hidden and downloaded, with the configured ids, versions and sizes in order; an SBL starts where the boot loader's trial area does, and the last one ends inside it |
| `WholeUpload.EarlierSblUnchecked` | common/mcumgr_qcom/src/fw_upgrade.c:583-590 | what the space check lets through: of two SBL images only the last one's size is compared with the area |
| `WholeUpload.OpenVerdict` | common/mcumgr_qcom/src/fw_upgrade.c:821-911 | opening the next image fails exactly for a first file system larger than its area or for want of a free entry, each with its code, and otherwise leads to the next byte or, for an empty image, to the next image |
| `WholeUpload.DigestDecides` | common/mcumgr_qcom/src/fw_upgrade.c:967-1018 | an image is refused for its digest exactly when the digest of all its bytes, however they came in, is not the one of its header |
| `SampleDevice.SampleLayout` | common/mcumgr_qcom/src/fw_upgrade_mem.c:745-799 | a concrete provisioned flash with the layout the histories start from |
| `SampleDevice.GoldenLayout` | common/mcumgr_qcom/src/fw_upgrade_mem.c:787-797 | the same with a golden slot |
| `SampleDevice.SampleFileSystems` | common/mcumgr_qcom/src/fw_upgrade.c:1047-1107 | both meet what the file system results start from |
| `SampleDevice.SampleUploadIsValid` | common/mcumgr_qcom/src/fw_upgrade.c:397-622 | a concrete device and configuration that meet every assumption made about uploads |
| `SampleDevice.SampleUploadInstalls` | common/mcumgr_qcom/src/fw_upgrade.c:1189-1667 | whose payload, unless it is empty, is therefore installed |
| `Upload.FedIsAPrefix` | common/mcumgr_qcom/src/qcom_img_mgmt.c:451-503 | whatever is repeated, overlapped, reordered or dropped, the bytes fed since the last restart are the stream up to the expected offset |
| `Upload.Handler.Upload` | common/mcumgr_qcom/src/qcom_img_mgmt.c:451-545 | a segment that reaches beyond the expected offset and does not start behind it feeds exactly its new bytes and moves the offset to its end, or is refused with the error the session's code maps to; any other leaves session and flash alone and is answered with the expected offset; the lost handles are accounted for |
| `Upload.CoveredToTheEnd` | common/mcumgr_qcom/src/qcom_img_mgmt.c:451-503 | requests that cover a stream without a gap, repeated and overlapped as they like, end at the end of the stream |
| `Upload.UploadAll` | common/mcumgr_qcom/src/qcom_img_mgmt.c:451-545 | a client's requests one after the other: if none is refused and they leave no gap, the whole stream has been fed |
| `Upload.Handler.HandlesSufficeExactlyWhen` | common/mcumgr_qcom/src/fw_upgrade.c:275-283 | from a full pool, as long as no flash fault, SBL or empty scratch partition has come in between, two handles are free exactly while at most eight restarts, one about to be made included, have hit an open image |
| `Upload.Handler.HoldsOnImage` | common/mcumgr_qcom/src/fw_upgrade.c:821-911 | when the session has settled it holds a handle exactly on an open image, unless one of these has come in between |
| `Upload.Handler.Hand` | common/mcumgr_qcom/src/qcom_img_mgmt.c:470-502 | new bytes are counted only when the session takes them |
| `Upload.WholeStreamUploaded` | common/mcumgr_qcom/src/qcom_img_mgmt.c:451-511 | a client that brings a whole valid stream across, in whatever pieces, gets its payloads installed unless the last is empty |
| `FlashLayout.LayoutReady` | common/mcumgr_qcom/src/fw_upgrade_mem.c:218-314 | the running slot's partitions and the selected region are aligned, disjoint and inside the flash, in both modes |
| `FlashLayout.RegionOverlapsNothing` | common/mcumgr_qcom/src/fw_upgrade_mem.c:745-799 | the selected region overlaps no image of another slot that runs or may boot and no descriptor, and lies behind the running slot's reserved partitions; if that has a first file system, behind all reserved areas |
| `FlashLayout.TwoSlotRegion` | common/mcumgr_qcom/src/fw_upgrade_mem.c:765-786 | with two slots, the region is the slot's half, or what slot 0's images leave of it |
| `FlashLayout.GoldenRegion` | common/mcumgr_qcom/src/fw_upgrade_mem.c:787-797 | with a golden slot, the region is exactly the slot's own half behind the golden images |
| `FlashLayout.RegionInsideExactlyWhen` | common/mcumgr_qcom/src/fw_upgrade_mem.c:765-786 | on any flash with two slots, the region selected for slot 1 lies inside the flash exactly when the images of slot 0 end within the two halves; otherwise its size has wrapped around |
| `SampleDevice.LastBlockWraps` | common/mcumgr_qcom/src/fw_upgrade_mem.c:781-784 | concrete case: a flash with an odd number of blocks behind the reserved partitions and slot 0 in the last one, on which the size of the selected region wraps around |
| `LayoutHistory.LayoutForever` | common/mcumgr_qcom/src/fw_upgrade_mem.c:218-314 | over any history of sessions completed or cut off, each started with two handles to spare, acceptances, rejections, reboots and data writes, the layout holds and the next session is well placed |
| `LayoutHistory.HandlesLast` | common/mcumgr_qcom/src/fw_upgrade.c:275-283 | each event losing at most one handle, as `ProcessAll` ensures of a session and `RejectTrialFwd` of a rejection, from a full pool on eight events leave the two that the next session needs |
| `LayoutHistory.TornEraseKeepsLayoutExactlyWhen` | common/mcumgr_qcom/src/fw_upgrade.c:1273-1285 | however the erase of the descriptor is cut off, the layout is kept: exactly when the slot was not valid before |
| `LayoutHistory.TornEraseIsCutOff` | common/mcumgr_qcom/src/fw_upgrade.c:1273-1285 | unless the old status is still there and valid, such an erase is an ordinary session cut off |
| `LayoutHistory.EntriesLostStillBoots` | common/mcumgr_qcom/src/fw_upgrade.c:1273-1285 | what can go wrong: the header still there and the entries gone, so the slot boots and lists nothing |
| `LayoutHistory.EventKeepsLayout` | common/mcumgr_qcom/src/fw_upgrade_mem.c:679-799 | each kind of event keeps the layout, acceptances and rejections cut off in the middle of a write included |
| `LayoutHistory.CompletedKeeps` | common/mcumgr_qcom/src/fw_upgrade.c:989-993 | the images of a completed upgrade keep to the slot's area, apart from the other slot's |
| `LayoutHistory.CutOffKeeps` | common/mcumgr_qcom/src/fw_upgrade.c:1233-1661 | a session cut off anywhere before its commit keeps the layout |
| `DeviceLife.EverySessionStateIsAnEvent` | common/mcumgr_qcom/src/fw_upgrade.c:1189-1667 | every flash contents a session leaves behind is that of a session cut off or carried through, or of a descriptor erase cut off while the old status, which was valid, is still there |
| `DeviceLife.OtherImagesUntouched` | common/mcumgr_qcom/src/fw_upgrade.c:1248-1424 | no image of another slot that runs or may boot is touched, at whatever point the session is cut off, and whether or not the running slot has a first file system |
| `DeviceLife.RunningDataUntouched` | common/mcumgr_qcom/src/fw_upgrade.c:1287-1424 | nor are the running slot's first file system and user data |
| `DeviceLife.OpenSessionIsDescribe` | common/mcumgr_qcom/src/fw_upgrade.c:1252-1263 | in terms of the slot life cycle, a session under way has begun and described its slot and touched no other |
| `DeviceLife.CutOffIsTorn` | common/mcumgr_qcom/src/fw_upgrade.c:1233-1661 | a session cut off anywhere, even in the middle of a write, has begun its slot and left some header in it that is not valid |
| `DeviceLife.HistoryAsRun` | common/mcumgr_qcom/src/fw_upgrade_mem.c:679-799 | any history of the device is a run of the slot life cycle that takes no more ranks, tears none unless the history does, and rewrites no slot but the sessions' targets |
| `DeviceLife.FallbackForever` | common/mcumgr_qcom/src/fw_upgrade_mem.c:679-799 | so over any history, power cuts within acceptances and rejections included, there is a slot to fall back to, even when the next session's first erase is cut off, as long as each whole acceptance on two slots finds room for its rank |
| `DeviceLife.RanksLastWhen` | common/mcumgr_qcom/src/fw_upgrade_mem.c:692-694 | it does if no acceptance is cut off in the middle of its rank and the first top rank and the number of acceptances do not exceed 0xFFFFFFFE |
| `DeviceLife.GoldenHeaderForever` | common/mcumgr_qcom/src/fw_upgrade_mem.c:745-799 | over any history of the device the golden header never changes |
| `DeviceLife.RetiredUntilRewritten` | common/mcumgr_qcom/src/fw_upgrade_mem.c:711-743 | over any history of the device, a retired or rejected slot is neither current nor on trial until a session goes to it |
| `DeviceLife.CompletedIsCommit` | common/mcumgr_qcom/src/fw_upgrade.c:1653-1656 | a completed session has begun, described and committed it |
| `FileSystems.FileSystemCarriedOver` | common/mcumgr_qcom/src/fw_upgrade.c:826-852 | an upgrade with a first file system swaps the two areas and carries the old contents into the new first one |
| `FileSystems.EventCarries` | common/mcumgr_qcom/src/fw_upgrade.c:1047-1107 | every event, from sessions cut off to reboots, keeps the running file system's contents and its twin in every slot that could be booted |
| `FileSystems.FileSystemForever` | common/mcumgr_qcom/src/fw_upgrade.c:1047-1107 | over any history of such events the contents survive, the areas swap with every change of slot, and the reserved end stays |
| `FileSystems.NoFirstFsInstalled` | common/mcumgr_qcom/src/fw_upgrade.c:826-852 | the new slot has a first file system exactly when the configuration lists one |
| `FileSystems.SessionStartsExactlyWhen` | common/mcumgr_qcom/src/fw_upgrade.c:1244-1424 | a session gets past its start exactly when a slot other than the running one can be selected and the running slot has a first file system; each of the three failures has its code |
| `FileSystems.InstalledUpgradesExactlyWhen` | common/mcumgr_qcom/src/fw_upgrade.c:1322-1329 | once an installed slot runs, and another can be selected, it can be upgraded from exactly when its own configuration listed a first file system |
| `FileSystems.ScratchNotEmpty` | common/mcumgr_qcom/src/fw_upgrade.c:1287-1318 | on a laid-out flash no scratch partition is empty, so without flash faults no failed session keeps a handle |
| `SampleDevice.NoUpgradeAfterThat` | common/mcumgr_qcom/src/fw_upgrade.c:1322-1329 | concrete case: an upgrade without a first file system is installed, boots and is accepted, and no session gets past its start again |
| `Qcspi.PollUntilIdle` | qcspi_app/qcc730_host/Service/qcspi/qcspi_driver.c:272-289 | a transfer is reported complete exactly when one of the first 49 status reads succeeds with the busy bit clear |
| `Qcspi.Driver.Read` | qcspi_app/qcc730_host/Service/qcspi/qcspi_driver.c:224-290 | whole aligned words; too long a transfer is refused untouched |
| `Qcspi.Driver.Write` | qcspi_app/qcc730_host/Service/qcspi/qcspi_driver.c:292-347 | whole aligned words; a failed write has landed word by word or not at all |
| `Qcspi.Driver.ReadAddrAlign` | qcspi_app/qcc730_host/Service/qcspi/qcspi_driver.c:47-109 | an unaligned read returns exactly the slice, by aligned transfers only; on a reliable bus it succeeds exactly when its longest transfer fits |
| `Qcspi.Driver.WriteAddrAlign` | qcspi_app/qcc730_host/Service/qcspi/qcspi_driver.c:111-187 | an unaligned write changes exactly its range; on failure nothing outside the range changes |
| `Qcspi.WriteThenRead` | qcspi_app/qcc730_host/Service/qcspi/qcspi_driver.c:47-187 | whatever the address and length, reading a range back after writing it gives the data, nothing outside has changed, and on a reliable bus both succeed exactly when the longest transfer fits |
| `RingLayout.DistanceOfCounters` | qcspi_app/qcc730_host/Service/ring/ring_service_host.c:340-349 | occupancy computed from wrapped indices is the difference of the running counters |
| `RingLayout.LengthThenFlags` | qcspi_app/qcc730_host/Service/ring/ring_service.h:22-36 | the second word of a descriptor is the length in two bytes, then the flags in two |
| `RingLayout.RingReadsBack` | qcspi_app/qcc730_host/Service/ring/ring_service.h:22-36 | descriptors and buffers laid out one after the other are what is read from each slot |
| `RingLayout.SlotsApart` | qcspi_app/qcc730_host/Service/ring/ring_service_host.c:380-397 | different slots share no byte, neither descriptors nor buffers |
| `RingLayout.WordTorn` | qcspi_app/qcc730_host/Service/ring/ring_service_host.c:403-411 | a failing index write has taken effect entirely or not at all |
| `RingLayout.WriteWord` | qcspi_app/qcc730_host/Service/ring/ring_service_host.c:400-411 | an index word is written as a whole or not at all, and fails only on a bus that does |
| `RingTx.Transmitter.Send` | qcspi_app/qcc730_host/Service/ring/ring_service_host.c:293-428 | with a stale read index and a slave running between any two transfers: no unread slot is overwritten, occupancy stays below the slot count, a full ring is reported only when it is full, the slave sees exactly the committed packets in order, a packet whose publish failed goes out with the next one; a send is refused, with nothing touched, exactly when the service is not initialised, the ring unknown or not configured, or the packet empty or longer than a buffer, each with its code |
| `RingTx.Transmitter.SlaveRuns` | qcspi_app/qcc730_host/Service/ring/ring_service.h:58-70 | the slave's side: it takes published packets in order, owns its index and the slots it has taken, and what it takes is what was committed |
| `RingTx.Transmitter.CheckSpace` | qcspi_app/qcc730_host/Service/ring/ring_service_host.c:334-370 | the cached index never over-admits; refusal means full at the moment the slave's index was read |
| `RingTx.Transmitter.WriteBuffer` | qcspi_app/qcc730_host/Service/ring/ring_service_host.c:372-382 | the data goes into the free slot only |
| `RingTx.Transmitter.WriteDescriptor` | qcspi_app/qcc730_host/Service/ring/ring_service_host.c:384-398 | so does the descriptor, whose word is exactly the valid flag and the length in sixteen bits; afterwards the slot holds the packet |
| `RingTx.Transmitter.WholeExactlyWhen` | qcspi_app/qcc730_host/Service/ring/ring_service_host.c:384-398 | a packet arrives as it was given exactly when its length is below 65536 |
| `SampleRings.LongPacketIsCut` | qcspi_app/qcc730_host/Service/ring/ring_service_host.c:384-411 | concrete case: of a packet of 65537 bytes a single one is sent, and the sender is told that all went well |
| `RingTx.Transmitter.Publish` | qcspi_app/qcc730_host/Service/ring/ring_service_host.c:400-411 | advancing the cached index commits the packet; the publish covers all committed packets or, failing, may cover none of the new ones |
| `RingTx.Transmitter.TxAvailable` | qcspi_app/qcc730_host/Service/ring/ring_service_host.c:191-236 | the free slots, by the slave's own read index; it fails only on a bus that does |
| `RingTx.PendingAfter` | qcspi_app/qcc730_host/Service/ring/ring_service.h:58-70 | whatever the slave does, packets not yet taken stay in their slots |
| `RingRx.Receiver.Receive` | qcspi_app/qcc730_host/Service/ring/ring_service_host.c:434-591 | packets are returned at most once and in the slave's order; on a reliable bus a published head packet is delivered, exactly unless its descriptor has been cleared, it is empty, or too long for the buffer or a transfer, each with its error; an error before the index advance leaves the head packet unless clearing its descriptor took effect; only a failed index publish loses one; a call is refused, with nothing touched, exactly when the service is not initialised, the ring unknown or not configured, or the buffer empty; the error count goes up exactly for an unmarked slot and for a packet longer than the buffer |
| `RingRx.Receiver.TakeHead` | qcspi_app/qcc730_host/Service/ring/ring_service_host.c:510-591 | a slot the slave has not marked valid is never delivered, also after a wake-up without a packet; a packet that waits is, on a reliable bus, taken or refused for the reason it should be |
| `RingRx.Receiver.TakePacket` | qcspi_app/qcc730_host/Service/ring/ring_service_host.c:537-585 | reading, clearing, advancing and publishing: complete, or a transport error with the packet still there or lost to the failed publish |
| `RingRx.Receiver.AwaitPacket` | qcspi_app/qcc730_host/Service/ring/ring_service_host.c:464-509 | a published packet ends the wait at once; it is given up only when there was none; after a wake-up the emptiness check is not repeated |
| `RingRx.Receiver.ReadDescriptor` | qcspi_app/qcc730_host/Service/ring/ring_service_host.c:511-530 | the head reads as valid exactly when an intact packet waits there, and then with its length, whatever other flags are set; reading fails only on a bus that does |
| `RingRx.Receiver.ClearDescriptor` | qcspi_app/qcc730_host/Service/ring/ring_service_host.c:551-562 | a failing clear either did nothing or has cleared the head, which then blocks the ring |
| `RingRx.Receiver.Advance` | qcspi_app/qcc730_host/Service/ring/ring_service_host.c:564-566 | the packet is taken off the ring |
| `RingRx.Receiver.PublishRead` | qcspi_app/qcc730_host/Service/ring/ring_service_host.c:568-577 | the shared read index covers all packets taken, or stays |
| `RingRx.Receiver.RxAvailable` | qcspi_app/qcc730_host/Service/ring/ring_service_host.c:241-286 | the published packets not yet taken; if the host has overtaken the write index by some, after stale wake-ups, that many less than the slot count; it fails only on a bus that does |
| `RingRx.Receiver.SlaveRuns` | qcspi_app/qcc730_host/Service/ring/ring_service.h:72-78 | the slave's side: it fills free slots, several at a time if it likes, marks them valid when complete, with any other flags, publishes them before or after, and leaves the waiting ones alone |
| `SampleRings.EmptyPacketBlocks` | qcspi_app/qcc730_host/Service/ring/ring_service_host.c:537-549 | concrete case: a published packet of length 0 is refused however often the host tries, and blocks the ring |

## Left out

- Partial-upgrade format, suspend and resume states, and duplication of images from the running slot: not reached from the
  packet path of the all-in-one format. `Session` assumes that format through `SaneStream`.
- Configurations that list a reserved partition (second file system, RAM dump, user data) or the id 0xFFFFFFFF, list the first
  file system twice, or whose sizes overflow 32 bits: `SaneConfig` excludes them from whole sessions; what the second of two first
  file systems is programmed onto is stated apart (`ImageInvariant.FirstFsStoredExactlyWhen`). The space check does not count a second file
  system although the layout cursor moves past it.
- Sessions that start with fewer than two free handles: what they select is modelled (`UpgradeMem.Mem.SelectTrialFwd`), and that the copy
  before the commit fails without two handles (`UpgradeSession.Session.ProcessDuplicateFs`), what they do in between is not.
- Handles taken by other software: the upload handler's count of lost handles starts from a full pool that nobody else uses.
- Continuing after a session error other than by a restart at offset 0: no meaning is given to it.
- What becomes of a device on which the erase of a valid slot's descriptor was cut off with the old status still there: histories
  do not go on from that state, in which a slot to fall back to is still there. Every other state of the flash that a session, an
  acceptance or a rejection passes through, torn writes included, is one from which histories go on.
- A byte is programmed, and a cell erased, as a whole or not at all.
- The build without file systems (`CONFIG_FW_UPGRADE_NO_FS`), a flash that does not start at address 0, and the check that the layer is
  initialised.
- SBL contents and the boot loader's table in RRAM: an SBL entry is created unscaled and skips erase and write; where the trial
  SBL area lies is a parameter. Which slot runs, and how it was started, are parameters too.
- Flash reads fail only when out of bounds; memory allocation never fails.
- SHA-256 is an uninterpreted function of the bytes fed to it.
- The erase command of the image management group, which takes any slot number without protection.
- CBOR decoding, replies on the wire, reboot timers, logging, shell commands.
- Image ids, versions and sizes changed in place (`fw_upgrade_set_image_id` and its siblings), forced boot, display.
- Slave steps inside one transport call: they are taken between calls. An unaligned write reads and rewrites whole words, so a slave
  writing a neighbouring byte at that moment is not covered.
- Mutexes are atomic sections; a lock that times out, callbacks, work queues and interrupt lines are not modelled, nor is ring
  initialisation beyond an empty ring.
- A slave that marks a slot valid before its packet is complete, moves its buffers, or leaves a whole turn of filled slots unpublished:
  excluded from the slave's steps.
- A read goes on after a failed write of its length register; such a read is taken to return the words that were asked for.
