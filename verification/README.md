# Verified models of sfcb and the zb8 bootloader

Dafny models of the parts of the repository that have to survive a power cut at any moment,
with proofs that they do. To verify: `dafny verify dfyconfig.toml`.

* **The store** (`Sfcb*.dfy`): sfcb, a log-structured store on a ring of flash sectors, with the
  keep-newest compress routine of its README. The abstract value is a *history*: the sequence of
  entries that were closed. `SfcbRun.Run` drives any sequence of writes with a power cut at any
  flash operation, also during mounts, and ends with a mounted store whose history explains every
  answer the callers got. `SfcbRun.RunAndRead` says what is read then: the last acknowledged value of the
  id, or a later one on which power was lost. `SfcbStore.Store.OpenLoc` says when a write is taken, and `SfcbRun.Run`
  that none is refused as long as the ids in use fit one sector.
* **The settings backend** (`SfcbSettings.dfy`), a client of the store.
* **The swap** (`ZbCtr`, `ZbFlash`, `ZbMove`, `ZbImages`, `ZbSteps`, `ZbSwap`, `ZbSwapRun`): the
  zb8 step machine that moves the run image up by one sector, then alternates between decrypting
  an upgrade sector into run and encrypting a move sector into upgrade, and logs every step.
  `ZbSwapRun.SwapWithCuts` runs it with a power cut in any state of the flash; `ZbSwapRun.Exchanged` is what it
  does to the two images, byte by byte.
* **Image intake** (`ZbDfu`, `ZbSession`): the BLE DFU state machine and the block-buffered slot writer.
  `ZbSession.ServeSessions` says, of the events alone, when the swapper is started and on what.
* **First stage loader** (`ZbFsl.dfy`): relocation of a new swapper or loader.

`FlashBytes.dfy` holds what all of them share.

## How power cuts are modelled

Flash is a value (`mem` or `chip`) that erase and program steps replace. Every state that flash
goes through, including half programmed ones with arbitrary contents in the programmed range, is
appended to `trace`. A power cut sets the flash to one of the states in the trace and loses all
fields of the running program. A method is crash safe when all states it adds to the trace are
ones from which the history (or the swap) is recovered: `SfcbSteps.CrashSafe`, `ZbSwap.CrashSafe`,
`ZbFsl.CrashSafe`. Loops over whole runs take the positions of the cuts as inputs.

The swap invariant `ZbImages.Inv` says for each logged command where each sector of both images
is. While a step runs only its target sector changes, and the invariant does not depend on it
(`StepIsRestartable`), so any torn state of a step satisfies the invariant of the command before.

## What is assumed

The store
* Checksums are ideal: exactly completely written records are valid. `sfcb_crc8_verify` returns a
  signed difference and mount takes a negative one for an error (`sfcb/sfcb/src/sfcb.c:205`,
  `:483`, `:569`); the model's torn records do not do that.
* Erasing a sector is atomic, flash calls do not fail, and a sector is used by one thread.
* Write blocks of 1, 2, 4 or 8 bytes; sectors of at least 1024 and less than 65536 bytes; 2 to
  2^15 sectors; one allocation entry in the cache (`CONFIG_SFCB_ATE_CACHE_SIZE` 1) and no unaligned
  writes in flash.
* Lengths for which the padded length plus one ATE is less than 65536.
* Callers write no more than the length they declared. The check in `sfcb_write_loc`
  (`sfcb/sfcb/src/sfcb.c:851`) is looser than that; its answer is modelled (`WriteStatus`), and
  `MayWrite` asks for the rest.
* `sfcb_format` does not erase sectors with an empty first ATE, so `Format` asks for such sectors
  to be erased.
* The compress routine is that of `sfcb/README.md:276-317` with the current API: `sfcb_first_loc`
  is `sfcb_start_loc` followed by `sfcb_next_loc`, as in `sfcb/tests/src/main.c:507-550`.

The swap
* Erasing a sector may be interrupted like any other step; erasing the status area, which is done when
  nothing is to be resumed, is atomic. Flash calls do not fail.
* The header lies in the first sector, what is read from it depends on header bytes only, header and
  sector sizes are multiples of 16, and an erased sector has no header. Image checks succeed, so
  the branches for tampering and dependencies are not reached.
* The status area exists. It has room for the entries of one uninterrupted swap and three more for
  every power cut (a torn entry, and up to two that are repeated because the done flags are lost);
  the sector number of the last entry, one more for every cut, fits the command's byte.
* Without an old image, neither of the first two sectors of the run area parses as a header.
* While a swap is under way the run slot does not validate (`zb8/zb8/src/zb8_move.c:44-47`), but for one case:
  FINALISE confirms an image that asks for it (`:243-246`, `zb8/zb8/src/zb8_confirm.c:79-112`) before the end is
  logged, and a boot after a cut in between returns at once. `SwapWithCuts` has an input for that, `valid`.
* Once the end of a swap is logged, it is over. Whether `zb_img_swap` then starts another one depends
  on `zb_slt_validate`, which is an input of `ImgSwap`. An image that is not confirmed is swapped back
  at the next boot in that way: `SwapTwice`.
* Bytes behind the end of an image are not specified.
* As coded, image information cannot be loaded again after a reset while sectors above 0 are
  copied: `zb8/zb8/src/zb8_move.c:62-64` clears `img_ok`, and the hash over the half swapped run slot
  fails before the key is read (`zb8/zb8/src/zb8_image.c:171-188`). The code goes on with whatever the
  key buffers hold. `loads` says whether loading works; without it the model goes on in the same way,
  and `ZbSwapRun.Booted` says what each sector is then decrypted with, `ZbSwapRun.AfterCuts` for a run of
  boots. `ZbSwapRun.KeyIsNeeded` is the exact condition for a restart to do no harm, `ZbSwapRun.CutsNeedKey` for
  a whole run, and every swap of an image of two sectors or more passes
  a state in which it does (`LosesKey` in `ZbSwap.Swapper.ImgSwap`). Key buffers are any function from counter
  blocks to bytes, as the block cipher is a parameter.

Image intake: packets are no longer than the buffer (at least 32 bytes), the buffer divides the
sector and the sector the slot, and slot size plus two buffers stay below 2^32; power cuts are not
modelled, as an image that is not complete is never started. First stage loader: erasing a sector is atomic, the
destinations are whole sectors, no larger than the run area; the run image lies inside the run area.

## Where the code does less than it might seem

* `zb8/docs/design.md:196-200` counts three log entries a sector plus one. The exact number is
  `ZbSwap.WholeSwapCount`; `ZbSwap.DocumentedRoom` says when the documented one is enough.
* An older value of a setting with the empty name is never recognised as replaced
  (`settings_sfcb/settings_sfcb/src/settings_sfcb.c:118`): `SfcbSettings.EmptyNameIsRepeated`, and
  `SfcbSettings.EmptyNameCalls` for when it does no harm.
* A reset while the run area is erased leaves the rest of it: `ZbFsl.RunAreaMayStay`, with an example in
  `ZbFsl.RestOfRunStays`. Whether a boot erases it depends on the header alone (`ZbFsl.Loader.Boot`).
* After a reset of the swap above sector 0 the new image can be spoiled, as described above.
* When power fails after FINALISE has confirmed the new image and before the end is logged, FINALISE stays the last
  command while that image runs. The swap of the next upload, which makes the run slot invalid unless it is in
  place (`zb8/zb8/src/zb8_dfu.c:76-82`), is then taken for the old one going on; the upload is not installed
  (`ZbSwapRun.UploadNotInstalled`).
* `sfcb_open_loc` tries the room beside the live entries of every sector but the one that it erases first
  (`SfcbStore.Store.OpenLoc`).
* `sfcb_scmp` is not transitive (`SfcbSerial.ScmpNotTransitive`). The search for the newest sector is right
  all the same, as the ids in the ring are consecutive (`SfcbStore.Store.FsCheck`).

## Model

| member | source | states |
|---|---|---|
| SfcbRun.Run | sfcb/sfcb/src/sfcb.c:547-629 | for every sequence of writes, each possibly cut at any flash operation and followed by any number of cut mounts: the store ends mounted, acknowledged entries are in the history in order, refused ones are not, and of interrupted ones either; power fails exactly as asked for; no write is refused as long as the ids in use, each with its longest entry so far, and the new entry fit one sector, however long the run is; when all entries fit one sector with their ATEs, every write that is not cut is done |
| SfcbRun.AcknowledgedIsRead | sfcb/sfcb/src/sfcb.c:966-992 | after its last acknowledged write an id has the value of that write, or of a later one on which power was lost, and each of these is possible |
| SfcbRun.ValueIsPossible | sfcb/sfcb/src/sfcb.c:966-992 | every history that explains the answers gives an id a value that its writes and their answers allow |
| SfcbRun.UnacknowledgedIsEmpty | sfcb/sfcb/src/sfcb.c:966-992 | an id without an acknowledged write has no value, or that of a write on which power was lost |
| SfcbRun.RunAndRead | sfcb/sfcb/src/sfcb.c:966-992 | what sfcb_read returns after any run of writes, cuts and mounts: the last acknowledged value, or a later one on which power was lost; no write is refused when all entries fit one sector |
| SfcbRun.Step | sfcb/sfcb/src/sfcb.c:946-964 | without a cut, the answer says whether the store takes the entry, and the entry is in the history if so; with a cut, power fails in the state of the write that is asked for, and the history has the entry if that is the last state of a write that is taken, otherwise it is the old one |
| SfcbRun.Recover | sfcb/sfcb/src/sfcb.c:547-629 | mounting after any number of cut mounts recovers the history |
| SfcbRun.TakenByRoom | sfcb/sfcb/src/sfcb.c:713-747 | the values in a store were written to it, so that a write is taken when what was written before has room in one sector beside it |
| SfcbRun.EachHasRoom | sfcb/sfcb/src/sfcb.c:713-747 | when all entries of a run fit one sector, each of them has room beside those before it |
| SfcbParts.WriteInParts | sfcb/sfcb/src/sfcb.c:835-873 | flash afterwards is the flash at opening, which is that of the call or, after rotations, a state passed since, with the data, padded with 0xff, and one ATE in it, and the log is the one then with one entry behind it, however the data was split over write calls; a cut adds all of it or nothing |
| SfcbParts.ReadInParts | sfcb/sfcb/src/sfcb.c:875-899 | any split over read calls returns the bytes one call for all of them would |
| SfcbLog.ValueIsNewest | sfcb/sfcb/src/sfcb.c:966-992 | the value of an id is the data of its newest entry |
| SfcbLog.ValueConcat | sfcb/sfcb/src/sfcb.c:966-992 | newer parts of a log decide, older ones count only for ids that are not in them |
| SfcbLog.AppendCopy | sfcb/sfcb/src/sfcb.c:901-944 | appending a copy of the newest entry of an id changes no value |
| SfcbLog.SettledCopy | sfcb/README.md:276-317 | after the only entry of an id was copied behind the newer sectors, its sector is no longer needed for that id, and no value has changed |
| SfcbLog.SettledSkip | sfcb/README.md:276-317 | an entry with a newer one of its id, or without data, needs no copy |
| SfcbLog.SettledEnd | sfcb/README.md:276-317 | when all entries of a sector are dealt with, the log without that sector has the same values |
| SfcbLog.LiveReplaces | sfcb/README.md:276-317 | copies of the live entries of a sector, behind the newer ones, replace it: every value is kept |
| SfcbLog.LiveIsNeeded | sfcb/README.md:276-317 | none of these copies can be left out: without it its id has no value any more |
| SfcbLog.LiveMore | sfcb/README.md:276-317 | what is live in a sector does not change when entries of other ids are appended |
| SfcbFlash.Device.Program | sfcb/sfcb/src/sfcb.c:48-124 | only erased and aligned cells are programmed; the trace holds the torn state and the final one |
| SfcbSector.AlignDown | sfcb/sfcb/src/sfcb.c:13-16 | the largest multiple of the write block not above the length |
| SfcbSector.AlignUp | sfcb/sfcb/src/sfcb.c:18-21 | the smallest multiple of the write block not below the length |
| SfcbSector.CommitSlot | sfcb/sfcb/src/sfcb.c:766-779 | programming the next ATE adds exactly one entry, with the data below it, and leaves an erased slot below |
| SfcbSector.TornSlot | sfcb/sfcb/src/sfcb.c:766-779 | an ATE that is cut short adds no entry, and the sector stays well formed: it is skipped |
| SfcbSector.FreeSpaceIsFree | sfcb/sfcb/src/sfcb.c:48-124 | whatever is programmed between the last data and the next ATE slot changes no entry |
| SfcbSector.FreshSector | sfcb/sfcb/src/sfcb.c:342-368 | a sector without ATEs is well formed and empty, whatever its start record looks like |
| SfcbSector.EntriesFewerThanSlots | sfcb/sfcb/src/sfcb.c:240-276 | a walk down the slots yields at most one entry for each written slot |
| SfcbRing.Prev | sfcb/sfcb/src/sfcb.c:233-238 | the previous sector is the one whose next is this one |
| SfcbRing.RingIsUnique | sfcb/sfcb/src/sfcb.c:454-494 | flash contents determine the write sector and its id: no two readings of the sector starts fit |
| SfcbRing.LogSplits | sfcb/sfcb/src/sfcb.c:332-340 | the log is the sector to be compressed followed by the newer ones, and also the older ones followed by the write sector |
| SfcbRing.SameEntries | sfcb/sfcb/src/sfcb.c:370-385 | replacing a sector by one with the same start and entries changes nothing |
| SfcbRing.EraseVictim | sfcb/sfcb/src/sfcb.c:370-385 | erasing the sector after the write sector loses no value when compress has finished; ids stay consecutive |
| SfcbRing.StartVictim | sfcb/sfcb/src/sfcb.c:342-385 | a new start record moves the head of the ring on by one, with an unchanged log |
| SfcbRing.EraseCopies | sfcb/sfcb/src/sfcb.c:606-624 | erasing a write sector that holds only copies loses no value; its predecessor is the newest sector again |
| SfcbSteps.DataStep | sfcb/sfcb/src/sfcb.c:48-124 | programming data in free space keeps the ring, the log and the write position |
| SfcbSteps.CommitStep | sfcb/sfcb/src/sfcb.c:766-779 | an ATE appends its entry to the log and moves both write offsets |
| SfcbSteps.TornStep | sfcb/sfcb/src/sfcb.c:766-779 | a torn ATE keeps the ring and the log |
| SfcbSteps.CommitImage | sfcb/sfcb/src/sfcb.c:766-779 | from then on the history with the entry is the one recovered |
| SfcbSteps.CopyImage | sfcb/sfcb/src/sfcb.c:901-944 | a copy leaves the history recovered, and the write sector still holds only copies |
| SfcbSteps.EraseStep | sfcb/sfcb/src/sfcb.c:370-385 | with the next sector erased, or with a torn start record, the history is recovered |
| SfcbSteps.StartStep | sfcb/sfcb/src/sfcb.c:342-368 | the start record makes a write sector without entries, and the history is recovered |
| SfcbSteps.FallbackStep | sfcb/sfcb/src/sfcb.c:606-624 | erasing a write sector with an unfinished compress keeps the history recoverable |
| SfcbSteps.OffsetsUnique | sfcb/sfcb/src/sfcb.c:547-604 | flash contents determine both write offsets when no data was written behind them |
| SfcbSerial.ScmpBehind | sfcb/sfcb/src/sfcb.c:33-42 | ids that lie p and q behind a common one, less than 2^15 each, compare as their distance, across wrap-around |
| SfcbSerial.ScmpNotTransitive | sfcb/sfcb/src/sfcb.c:33-42 | the comparison is not an order in general |
| SfcbWalk.RestStart | sfcb/sfcb/src/sfcb.c:316-330 | from the start the whole log remains to be walked |
| SfcbWalk.RestStep | sfcb/sfcb/src/sfcb.c:240-276 | a written slot yields its entry, if it is valid, and the rest remains |
| SfcbWalk.RestSectorEnd | sfcb/sfcb/src/sfcb.c:278-314 | at the end of a sector the walk goes on in the next one without losing an entry, and gets nearer to the write sector |
| SfcbBuffer.FillCache | sfcb/sfcb/src/sfcb.c:71-91 | bytes that do not fill the write block are kept in the cache |
| SfcbBuffer.FlushCache | sfcb/sfcb/src/sfcb.c:71-99 | a write block that becomes full is programmed with the cached and the new bytes |
| SfcbBuffer.FlushBlocks | sfcb/sfcb/src/sfcb.c:101-111 | whole blocks go to flash directly |
| SfcbBuffer.RestartCache | sfcb/sfcb/src/sfcb.c:113-117 | a remainder restarts the cache |
| SfcbBuffer.PayloadWritten | sfcb/sfcb/src/sfcb.c:749-765 | closing leaves the data in flash, padded with 0xff, and everything behind erased |
| SfcbBuffer.SplitsDoNotMatter | sfcb/sfcb/src/sfcb.c:48-124 | before the location is closed, flash contents depend on the bytes written only, not on how they were split |
| SfcbBuffer.FlushedSector | sfcb/sfcb/src/sfcb.c:749-765 | with the rest flushed, the sector is that at opening with the bytes written in it |
| SfcbCompress.SettlingEnd | sfcb/README.md:276-317 | a walk over the whole sector leaves it without influence on any value |
| SfcbCompress.SettlingSkip | sfcb/README.md:276-317 | skipping an entry that is empty or has a newer one keeps the progress invariant |
| SfcbCompress.SettlingCopy | sfcb/README.md:276-317 | copying the others keeps it, although the copy goes to the end of the log being walked |
| SfcbCompress.CopyKeepsView | sfcb/README.md:276-317 | the copy changes no value |
| SfcbCompress.CleanNeedsNoCopy | sfcb/README.md:276-317 | a second run after a finished one finds nothing to copy |
| SfcbCompress.PlanStep | sfcb/README.md:292-310 | an entry that is dealt with, copied or not, leaves just the other live entries to be copied, although the copies change what is newer |
| SfcbCompress.RotatedMore | sfcb/sfcb/src/sfcb.c:726-736 | after any number of rotations, a sector that was not reached yet will be compressed to the entries that were live in it at the start |
| SfcbCompress.LogAfterErase | sfcb/sfcb/src/sfcb.c:342-385 | with the next sector erased and made the write sector, the log is what was newer than it |
| SfcbCompress.CopyFits | sfcb/sfcb/src/sfcb.c:606-624 | copies of any entries of one sector fit a fresh sector, so that compress there never runs out of space |
| SfcbCompress.LiveAreValues | sfcb/README.md:276-317 | live entries have different ids, and each has the value of its id |
| SfcbCompress.SpaceWithin | sfcb/sfcb/src/sfcb.c:679-711 | entries of different ids take no more space than longer ones of the same ids |
| SfcbStore.Store.StartLoc | sfcb/sfcb/src/sfcb.c:316-330 | the walk begins before the oldest entry |
| SfcbStore.Store.NextInSector | sfcb/sfcb/src/sfcb.c:240-276 | one slot further down; valid exactly for a completely written ATE, and the end exactly at an erased slot or the bottom |
| SfcbStore.Store.NextLoc | sfcb/sfcb/src/sfcb.c:278-314 | repeated calls visit every entry of the log once, oldest first, skip torn ones and empty sectors, and then report the end |
| SfcbStore.Store.ReadLoc | sfcb/sfcb/src/sfcb.c:875-899 | the next bytes of the entry, cut at its end; the position moves by what was returned |
| SfcbStore.Store.SetPos | sfcb/sfcb/src/sfcb.c:813-833 | moves the read position within the entry, and refuses the entry being written and positions behind the end |
| SfcbStore.Store.FindNewest | sfcb/sfcb/src/sfcb.c:966-985 | finds the newest entry of an id if and only if there is one |
| SfcbStore.Store.Read | sfcb/sfcb/src/sfcb.c:966-992 | the first bytes of the value of the id in the history; not found only for ids without a value |
| SfcbStore.Store.FlashWrite | sfcb/sfcb/src/sfcb.c:48-124 | flash and cache together hold the bytes written so far; no block is programmed twice |
| SfcbStore.Store.FlashWriteAligned | sfcb/sfcb/src/sfcb.c:101-117 | the same from a block boundary on |
| SfcbStore.Store.InitLoc | sfcb/sfcb/src/sfcb.c:679-711 | succeeds exactly when the padded data and one more ATE fit below the next ATE slot |
| SfcbStore.Store.WriteLoc | sfcb/sfcb/src/sfcb.c:835-873 | appends to what is written at an open location; other locations are refused and nothing changes |
| SfcbStore.Store.FlushRest | sfcb/sfcb/src/sfcb.c:754-765 | the cached rest goes to flash: the payload is the written data, padded, and nothing else has changed since opening |
| SfcbStore.Store.CommitAte | sfcb/sfcb/src/sfcb.c:767-780 | the entry is appended to the log and, unless it is a copy, to the history; a power cut adds it or not |
| SfcbStore.Store.CloseLocNoUnlock | sfcb/sfcb/src/sfcb.c:749-780 | both together, with the entry made of the bytes written; flash and log are those at opening with just that entry added |
| SfcbStore.Store.CloseLoc | sfcb/sfcb/src/sfcb.c:782-796 | closes the open location and refuses every other one |
| SfcbStore.Store.CloseWritten | sfcb/sfcb/src/sfcb.c:782-796 | closing commits the entry that was written since opening: history and log end with it, and a cut leaves either history |
| SfcbStore.Store.CopyLoc | sfcb/sfcb/src/sfcb.c:901-944 | appends a copy of the entry, in write blocks, exactly when it fits; the history does not change |
| SfcbStore.Store.CopyBlock | sfcb/sfcb/src/sfcb.c:901-944 | one block read and written: the copy is as long as the part that was read |
| SfcbStore.Store.IsNewest | sfcb/README.md:292-303 | true exactly when no later entry of the log has the id |
| SfcbStore.Store.CompressEntry | sfcb/README.md:292-310 | one entry of the sector is dealt with as planned; it fails only if there is no room, and then the write sector holds only copies |
| SfcbStore.Store.Compress | sfcb/README.md:276-317 | afterwards no value depends on the sector to be erased next; exactly its live entries are copied, in order, and take exactly their space; in a fresh sector it always succeeds; every cut leaves the history |
| SfcbStore.Store.NewSector | sfcb/sfcb/src/sfcb.c:342-385 | the next sector becomes an empty write sector with the next id, for any state in which that sector may be erased |
| SfcbStore.Store.Rotate | sfcb/sfcb/src/sfcb.c:726-736 | one rotation keeps the history and ends with nothing to compress; the new sector holds the live entries of the next victim and nothing else, all other sectors are as they were |
| SfcbStore.Store.OpenLoc | sfcb/sfcb/src/sfcb.c:713-747 | keeps the history through any number of rotations, also when it ends without memory; succeeds if and only if there is room at once, or some sector other than the one that is erased first could take the entry beside the entries that are live in it at the start |
| SfcbStore.Store.RoomIsTaken | sfcb/sfcb/src/sfcb.c:713-747 | that is so when two sectors or more are unused and the entry fits a sector |
| SfcbStore.Store.ValuesLeaveRoom | sfcb/sfcb/src/sfcb.c:713-747 | a store takes an entry whenever the values it holds and the entry fit one sector, whatever else is in flash |
| SfcbStore.Store.Write | sfcb/sfcb/src/sfcb.c:946-964 | succeeds on the same condition; the entry is in the history if and only if the call succeeds, and is then the newest in flash; every flash state on the way but the last recovers the old history |
| SfcbStore.Store.FsCheck | sfcb/sfcb/src/sfcb.c:454-494 | finds the newest sector and its id in every ring, from any start index and across wrap-around, and reports an unformatted area |
| SfcbStore.Store.RecoverOffsets | sfcb/sfcb/src/sfcb.c:558-604 | offsets behind the last valid entry with everything between them and the end of the next ATE slot erased |
| SfcbStore.Store.FindData | sfcb/sfcb/src/sfcb.c:585-604 | the data offset moves up behind orphaned data, and no further |
| SfcbStore.Store.FinishCompress | sfcb/sfcb/src/sfcb.c:606-624 | completes an interrupted compress, if need be in an erased write sector, without losing an entry |
| SfcbStore.Store.Mount | sfcb/sfcb/src/sfcb.c:547-629 | recovers the history from every flash state a power cut may leave, and is crash safe itself; when nothing is left to compress, flash is not changed |
| SfcbStore.Store.Remount | sfcb/sfcb/src/sfcb.c:547-629 | mounting a store without orphaned data again gives back exactly the fields it had |
| SfcbStore.Store.Format | sfcb/sfcb/src/sfcb.c:496-545 | leaves a store with an empty history |
| SfcbStore.FormattedImage | sfcb/sfcb/src/sfcb.c:535-537 | one sector start in an erased area is a ring without entries |
| SfcbStore.CompareInRing | sfcb/sfcb/src/sfcb.c:466-481 | in a ring the id comparison is the comparison of positions |
| SfcbSettings.LoadCallsNewest | settings_sfcb/settings_sfcb/src/settings_sfcb.c:144-173 | for every non-empty name, one call with the newest value, or none if that is empty |
| SfcbSettings.CalledAsNamed | settings_sfcb/settings_sfcb/src/settings_sfcb.c:129-175 | the same, for every log |
| SfcbSettings.NamesItem | settings_sfcb/settings_sfcb/src/settings_sfcb.c:72-92 | an entry has a name if and only if its id is 0xffff and it has an equals sign within the name buffer; the name are the bytes before the first one, up to a NUL |
| SfcbSettings.OthersIgnored | settings_sfcb/settings_sfcb/src/settings_sfcb.c:114-116 | the settings in a log are those of its entries with id 0xffff |
| SfcbSettings.OtherIgnored | settings_sfcb/settings_sfcb/src/settings_sfcb.c:147-149 | an entry of another id, anywhere in the log, changes no call |
| SfcbSettings.ReplacedIsNamed | settings_sfcb/settings_sfcb/src/settings_sfcb.c:103-127 | a setting is replaced if and only if a later entry with id 0xffff has its name, and that is not empty |
| SfcbSettings.EmptyNameIsRepeated | settings_sfcb/settings_sfcb/src/settings_sfcb.c:118-120 | two values saved under the empty name are both handed over |
| SfcbSettings.EmptyNameCalls | settings_sfcb/settings_sfcb/src/settings_sfcb.c:118-120 | for the empty name there is one call with the newest value if and only if no older value is left in the log |
| SfcbSettings.SavedIsParsed | settings_sfcb/settings_sfcb/src/settings_sfcb.c:72-92 | name and value of a saved setting are read back, whatever the value contains |
| SfcbSettings.SavedIsLoaded | settings_sfcb/settings_sfcb/src/settings_sfcb.c:129-199 | a save changes what load hands over for its name only, to the value saved |
| SfcbSettings.Settings.ReadName | settings_sfcb/settings_sfcb/src/settings_sfcb.c:72-92 | the part before the first equals sign, if that lies within the buffer |
| SfcbSettings.Settings.CheckDuplicate | settings_sfcb/settings_sfcb/src/settings_sfcb.c:103-127 | true exactly when a later entry with id 0xffff has the same non-empty name, which ends at its first equals sign or NUL |
| SfcbSettings.Settings.LoadEntry | settings_sfcb/settings_sfcb/src/settings_sfcb.c:144-173 | the call for one entry, decided by what follows it in the log; name and value are those around the first equals sign of the entry, and an entry of another id than 0xffff leads to none |
| SfcbSettings.Settings.Load | settings_sfcb/settings_sfcb/src/settings_sfcb.c:129-175 | for each non-empty name, one call with the bytes behind the first equals sign of the newest entry with id 0xffff and this name, none if there are no such bytes or no such entry; entries of other ids do not matter |
| SfcbSettings.Settings.Save | settings_sfcb/settings_sfcb/src/settings_sfcb.c:177-199 | three writes make one entry, the newest one in flash, if and only if some sector can take it; a power cut leaves all of it or nothing |
| SfcbSettings.SaveAndLoad | settings_sfcb/settings_sfcb/src/settings_sfcb.c:129-199 | after a save, load hands over the value just saved, also from a new sector; if there was room, and what it had for every other name |
| ZbCtr.IncIsSuccessor | zb8/zb8/src/zb8_crypto.c:138-146 | the carry chain over the counter bytes adds one, modulo 2 to the number of bits |
| ZbCtr.IncByIsAddition | zb8/zb8/src/zb8_move.c:281-289 | repeated increments add, modulo 2 to the number of bits |
| ZbCtr.StreamShift | zb8/zb8/src/zb8_move.c:278-289 | the key stream may be taken up at any block boundary with an advanced counter |
| ZbCtr.XorTwice | zb8/zb8/src/zb8_crypto.c:119-150 | encrypting twice is the identity |
| ZbCtr.Increment | zb8/zb8/src/zb8_crypto.c:138-146 | the loop that stops at the first byte without a carry is the counter increment |
| ZbCtr.CtrByte | zb8/zb8/src/zb8_crypto.c:119-150 | one byte is combined with its key byte; a new block is encrypted at block boundaries only |
| ZbCtr.AesCtrMode | zb8/zb8/src/zb8_crypto.c:119-150 | the first bytes of the buffer are combined with the key stream in order, the others stay, and the counter has moved behind the last block used |
| ZbFlash.AppendCmd | zb8/zb8/src/zb8_flash.c:232-265 | appending a command to a log of complete and torn ones: torn ones are not read, complete ones are read back |
| ZbFlash.LastCmdOfPrefix | zb8/zb8/src/zb8_flash.c:186-230 | what is behind the last complete command does not matter |
| ZbFlash.Flash.Erase | zb8/zb8/src/zb8_flash.c:50-83 | erases one sector of a slot, and nothing outside the slot |
| ZbFlash.Flash.Write | zb8/zb8/src/zb8_flash.c:85-136 | programs erased bytes of one sector; on the way only that sector differs |
| ZbFlash.Flash.CmdRead | zb8/zb8/src/zb8_flash.c:186-230 | the last completely written command, or none |
| ZbFlash.Flash.CmdWrite | zb8/zb8/src/zb8_flash.c:232-265 | uses the first erased slot of the log, and fails exactly when there is none |
| ZbMove.CounterAt | zb8/zb8/src/zb8_move.c:274-289 | the counter for an image offset: one increment for every 16 bytes behind the start of the encrypted part |
| ZbMove.MoveBlock | zb8/zb8/src/zb8_move.c:293-314 | one block of at most 512 bytes is copied, combined with the key stream or not |
| ZbMove.ImgMove | zb8/zb8/src/zb8_move.c:262-317 | a sector copy in blocks equals the image-wide transformation at its offset; only the target sector changes |
| ZbImages.StepIsRestartable | zb8/zb8/src/zb8_move.c:119-236 | whatever an interrupted step has left in its target sector, both images are where the logged command needs them |
| ZbImages.SectorsApart | zb8/zb8/include/zb8/zb8_slot.h:27-38 | although move sector k is run sector k + 1, a change of one sector leaves the images in all others |
| ZbImages.LogIsApart | zb8/zb8/src/zb8_flash.c:232-265 | appending to the log moves no image |
| ZbSteps.StartMove | zb8/zb8/src/zb8_move.c:98-118 | the last sector of the run image is moved first |
| ZbSteps.StartCopy | zb8/zb8/src/zb8_move.c:101-112 | without a run image, or in place, copying to run starts at once |
| ZbSteps.AfterRun2Mov | zb8/zb8/src/zb8_move.c:119-142 | after a sector was moved up, the next lower one may be overwritten |
| ZbSteps.AfterUpg2Run | zb8/zb8/src/zb8_move.c:144-197 | after a sector was decrypted into run, the old one in the move slot is the only other copy needed |
| ZbSteps.AfterMov2Upg | zb8/zb8/src/zb8_move.c:198-236 | after a sector was encrypted into upgrade, the next run sector is free |
| ZbSteps.Finished | zb8/zb8/src/zb8_move.c:145-152 | once both images are copied to their ends they are in their places |
| ZbSteps.NewHeader | zb8/zb8/src/zb8_move.c:156-172 | the header of the new image is found in upgrade before, and in run after the first sector was copied |
| ZbSteps.OldHeader | zb8/zb8/src/zb8_move.c:210-226 | the header of the old image is found in run, move or upgrade, wherever its first sector is |
| ZbSwap.WholeSwapCount | zb8/zb8/src/zb8_move.c:91-258 | the exact number of commands a whole swap logs, as a function of the two image lengths, at most 3 N + 6, with sector numbers at most N + 1 |
| ZbSwap.DocumentedRoom | zb8/docs/design.md:196-200 | when three entries a sector and one more are enough |
| ZbSwap.StepIsCrashSafe | zb8/zb8/src/zb8_move.c:119-236 | every flash state of a step can be resumed |
| ZbSwap.AppendIsCrashSafe | zb8/zb8/src/zb8_flash.c:232-265 | so can every state of a log append, torn or complete |
| ZbSwap.Swapper.LoadNew | zb8/zb8/src/zb8_move.c:156-176 | header and key of the new image, or, after a reset above sector 0, what the key buffers hold |
| ZbSwap.Swapper.StepRun2Mov | zb8/zb8/src/zb8_move.c:119-142 | moves one sector up; crash safe |
| ZbSwap.Swapper.StepUpg2Run | zb8/zb8/src/zb8_move.c:144-197 | decrypts one sector into run with the key at hand, or finds the image ended; crash safe |
| ZbSwap.Swapper.StepMov2Upg | zb8/zb8/src/zb8_move.c:198-236 | encrypts one old sector into upgrade, or finds the image ended; crash safe |
| ZbSwap.Swapper.LastSector | zb8/zb8/src/zb8_move.c:114-116 | the last sector with bytes of the run image |
| ZbSwap.Swapper.StepEmpty | zb8/zb8/src/zb8_move.c:98-118 | decides between the two kinds of start |
| ZbSwap.Swapper.ExecuteUpg2Run | zb8/zb8/src/zb8_move.c:144-197 | the next command after it, one command nearer to the end |
| ZbSwap.Swapper.ExecuteMov2Upg | zb8/zb8/src/zb8_move.c:198-236 | the next command after it, one command nearer to the end |
| ZbSwap.Swapper.Execute | zb8/zb8/src/zb8_move.c:91-252 | every command leads to one whose image positions are established, and brings the swap one logged command nearer to its end |
| ZbSwap.Swapper.Append | zb8/zb8/src/zb8_move.c:253-255 | logging the next command is crash safe |
| ZbSwap.Swapper.RestartCost | zb8/zb8/src/zb8_move.c:87-89 | without the done flags a swap logs at most two commands more and goes on to at most one sector more |
| ZbSwap.Swapper.Begin | zb8/zb8/src/zb8_move.c:49-85 | goes on with the last logged command unless that is the end of a swap; otherwise erases the log |
| ZbSwap.Swapper.Turn | zb8/zb8/src/zb8_move.c:91-255 | one turn of the loop: the command is executed and the next one logged, and a cut anywhere in it can be resumed within the limits |
| ZbSwap.Swapper.ImgSwap | zb8/zb8/src/zb8_move.c:20-260 | from any resumable state to the swapped images, with all intermediate flash states resumable and the exact number of commands logged; a new swap of two sectors or more passes a state in which a cut loses the key; from FINALISE on neither slot is changed |
| ZbSwapRun.Boot | zb8/zb8/src/zb8_move.c:44-95 | a boot that finds a run slot that is not valid completes the swap; the sectors still to be copied are decrypted with the right key if it is loaded, and with what the key buffers hold if not |
| ZbSwapRun.EnoughRoom | zb8/docs/design.md:196-200 | for N sectors, 3 N + 6 log entries and three for each cut, and sector numbers up to N + 1 and one for each cut, are always enough |
| ZbSwapRun.BootAndCut | zb8/zb8/src/zb8_move.c:44-95 | a boot that is cut short leaves a state that can be resumed, with its sectors decrypted in that way |
| ZbSwapRun.SwapWithCuts | zb8/zb8/src/zb8_move.c:49-258 | for any number of power cuts in any flash states of any steps the swap ends with both images in their places, given room for three log entries a cut; each sector is decrypted with what the boots after these cuts had for a key (AfterCuts), and so with the right one if the key can be loaded, or none of the states the cuts left needs it, or nothing was cut, or the image is one sector; boots never go back to before the first sector was copied |
| ZbSwapRun.AfterCutsRight | zb8/zb8/src/zb8_move.c:144-197 | when no cut is in a state that needs the key, everything is decrypted with the right one, for any number of cuts |
| ZbSwapRun.CutsNeedKey | zb8/zb8/src/zb8_move.c:144-197 | without key loading, a whole swap with cuts gives the right images for all contents of the key buffers in all boots if and only if no cut is in a state that needs the key |
| ZbSwapRun.SpoiltRun | zb8/zb8/src/zb8_move.c:144-197 | otherwise there are key buffers for each boot that spoil a sector of the new image |
| ZbSwapRun.NothingIsLost | zb8/zb8/src/zb8_slot.c:225-233 | in every state a cut may leave, each sector of the new image is in upgrade or decrypted in run, and each of the old one in run, move or encrypted in upgrade |
| ZbSwapRun.KeyIsNeeded | zb8/zb8/src/zb8_move.c:144-197 | going on without the key gives the right images for all contents of the key buffers if and only if no sector above 0 is left to be decrypted |
| ZbSwapRun.SpoilingKey | zb8/zb8/src/zb8_move.c:170-188 | for a restart at either copy command there are key buffers that spoil the next sector of the run slot |
| ZbSwapRun.BootedInv | zb8/zb8/src/zb8_move.c:49-89 | a restart changes nothing about the sectors that are in the run slot already |
| ZbSwapRun.BootedRight | zb8/zb8/src/zb8_move.c:144-197 | with the key loaded, or not needed, a restart goes on as planned |
| ZbSwapRun.SectorsAreOnePass | zb8/zb8/src/zb8_move.c:262-317 | copying sector by sector, the last sector up to the end of the image, equals one pass over the image up to its end, for all sector sizes and starts of the encrypted part |
| ZbSwapRun.ImagesAreOnePass | zb8/zb8/src/zb8_move.c:176-231 | after a swap with the right key the run slot holds the new image decrypted in one pass, up to its end, and the upgrade slot the old one encrypted in one pass, unless the swap is in place |
| ZbSwapRun.SwapExchanges | zb8/zb8/src/zb8_move.c:262-317 | in terms of flash before and after alone: with a key, byte x of the image behind the header is combined with byte (x - start) mod 16 of the encrypted counter block, and the counter is the nonce plus (x - start) / 16, modulo 2 to its number of bits; the header, and images without a key, are copied; new image from upgrade, in place from the sectors behind those of run, to run, old image from run to upgrade |
| ZbSwapRun.MovedInCounterMode | zb8/zb8/src/zb8_move.c:274-309 | one byte of it |
| ZbSwapRun.SwapBackIsReady | zb8/zb8/src/zb8_move.c:98-236 | a completed swap is the start of one in the other direction |
| ZbSwapRun.TwoSwapsRestore | zb8/zb8/src/zb8_move.c:98-236 | two swaps give back both images, byte for byte up to their ends |
| ZbSwapRun.SwapTwice | zb8/zb8/src/zb8_move.c:20-260 | two swaps run one after the other, each with any number of power cuts, give back both images, if the key can be loaded after a reset or no cut is in a state that needs it |
| ZbSwapRun.FinaliseAnywhere | zb8/zb8/src/zb8_move.c:237-252 | at FINALISE nothing is asked of the upgrade slot: any image in the run slot is the outcome of some swap |
| ZbSwapRun.UploadNotInstalled | zb8/zb8/src/zb8_move.c:44-76 | with FINALISE as the last logged command and any upload in the upgrade slot, the swapper logs the end of the old swap and changes neither slot |
| ZbDfu.AreaOf | zb8/zb8/src/zb8_dfu.c:56-71 | the slot at an offset |
| ZbDfu.TakesPart | zb8/zb8/src/zb8_dfu.c:43-73 | an image that is taken as a whole is taken buffer by buffer |
| ZbDfu.Countdown | zb8/loader/bledfu_loader/src/nrf_dfu.c:311-312 | the 32-bit countdown reaches 0 exactly when as many bytes were received as announced |
| ZbDfu.Loader.FindArea | zb8/zb8/src/zb8_dfu.c:57-66 | searches from the last slot down |
| ZbDfu.Loader.Flush | zb8/zb8/src/zb8_dfu.c:38-108 | the buffer is written if and only if the header asks for a slot and the data fits; then the slot starts with all data so far, and nothing was done to flash but what that takes |
| ZbDfu.Loader.FlushTo | zb8/zb8/src/zb8_dfu.c:81-107 | a sector is erased when the last one is full, before its first write, and not again: the flash operations so far are exactly those |
| ZbDfu.Loader.EraseSector | zb8/zb8/src/zb8_dfu.c:86-92 | the next sector is erased, what is before stays |
| ZbDfu.Loader.WriteBuffer | zb8/zb8/src/zb8_dfu.c:93-97 | the buffer goes to erased flash behind the data already written |
| ZbDfu.Loader.StartImage | zb8/zb8/src/zb8_dfu.c:30-36 | an empty buffer, and nothing written |
| ZbDfu.Loader.Receive | zb8/zb8/src/zb8_dfu.c:114-138 | slot and buffer together hold what was received, in order; a packet is turned down only if the image is |
| ZbDfu.Loader.ReceiveFlush | zb8/zb8/src/zb8_dfu.c:140-147 | afterwards the slot holds everything received |
| ZbDfu.Loader.Control | zb8/loader/bledfu_loader/src/nrf_dfu.c:114-237 | the state machine; the swapper is started exactly on activation of a validated image |
| ZbDfu.Loader.Packet | zb8/loader/bledfu_loader/src/nrf_dfu.c:239-352 | start packets reset what was received, image packets add to it, packets in other states are refused |
| ZbDfu.Loader.ReceivePacket | zb8/loader/bledfu_loader/src/nrf_dfu.c:303-346 | an image packet ends in failure only for an image without a slot or too long for it, and not before a buffer is full or the image complete; it completes the image exactly when the announced length is reached |
| ZbDfu.Loader.FinishPacket | zb8/loader/bledfu_loader/src/nrf_dfu.c:311-343 | the offsets count on in 32 bits; when the announced length is reached the rest of the buffer is written |
| ZbDfu.ServeOne | zb8/loader/bledfu_loader/src/nrf_dfu.c:114-352 | one event |
| ZbDfu.Serve | zb8/loader/bledfu_loader/src/nrf_dfu.c:114-352 | for every sequence of events: the states follow the protocol, and the swapper is started exactly on activation in the validated state, with the slot holding the announced number of bytes as they were received since the last start packet, and flash operated on for just these |
| ZbDfu.SectorsErasedOnce | zb8/zb8/src/zb8_dfu.c:86-97 | when the swapper is started, every sector of the image was erased exactly once since the start packet, before all writes to it |
| ZbDfu.ErasedOnce | zb8/zb8/src/zb8_dfu.c:86-97 | how often each erase and each write is done, and that no others are |
| ZbDfu.ErasedFirst | zb8/zb8/src/zb8_dfu.c:86-97 | an erase comes before all writes to its sector |
| ZbSession.ServeSessions | zb8/loader/bledfu_loader/src/nrf_dfu.c:114-352 | for every sequence of events and in terms of the events alone: the swapper is started if and only if the event is the ACTIVATE_IMG of a session: START, a start packet of 12 bytes, no command since but INIT, each followed by an init packet that passes, RECV_IMG, packets with just the announced number of bytes, which have a header for a slot and fit it unless there are none, VALIDATE_IMG; that slot then starts with these bytes |
| ZbSession.StartedAfterSession | zb8/loader/bledfu_loader/src/nrf_dfu.c:114-352 | the same for what was served before |
| ZbSession.StateIsExplained | zb8/loader/bledfu_loader/src/nrf_dfu.c:114-352 | every state of the service has the events behind it that lead to it, with the bytes received and the length announced in them |
| ZbSession.PreparedState | zb8/loader/bledfu_loader/src/nrf_dfu.c:239-299 | after a start packet and passed init packets the service waits for the image |
| ZbSession.ReceivingState | zb8/loader/bledfu_loader/src/nrf_dfu.c:303-346 | no part of an image that is accepted is turned down, however it is split into packets |
| ZbSession.ValidatedState | zb8/loader/bledfu_loader/src/nrf_dfu.c:154-178 | a complete image is validated |
| ZbFsl.CrcOfBoth | zb8/zb8/src/zb8_fsl.c:172-180 | a checksum over several reads is the one over all the bytes |
| ZbFsl.CrcByByte | zb8/zb8/src/zb8_fsl.c:172-180 | the checksum takes in the bytes in order |
| ZbFsl.Loader.RunCrc | zb8/zb8/src/zb8_fsl.c:173-180 | the checksum loop takes in the whole image |
| ZbFsl.Loader.EraseDst | zb8/zb8/src/zb8_fsl.c:46-46 | erases the destination; every state on the way can be resumed |
| ZbFsl.Loader.CopyChunk | zb8/zb8/src/zb8_fsl.c:48-53 | the copy grows by 32 bytes in erased flash, and a torn write can be resumed |
| ZbFsl.Loader.CopyDst | zb8/zb8/src/zb8_fsl.c:48-53 | the destination becomes the start of the run area |
| ZbFsl.Loader.EraseRun | zb8/zb8/src/zb8_fsl.c:55-56 | the header goes first, so that from then on the image is not moved again; the trace has the state in which only the header is gone |
| ZbFsl.Loader.Move | zb8/zb8/src/zb8_fsl.c:23-61 | the image is at its destination and no longer in the run area; crash safe |
| ZbFsl.Loader.Boot | zb8/zb8/src/zb8_fsl.c:157-206 | a run image with a header and the right checksum is started if it is for the run area, and moved completely if it is for the swapper or the loader; then, or without such an image, the swapper is started if it has a header; when an image was moved, the run area is erased if it had a header still and left alone if not |
| ZbFsl.BootOutcome | zb8/zb8/src/zb8_fsl.c:157-206 | the same, in terms of what the areas hold before and after |
| ZbFsl.BootWithCuts | zb8/zb8/src/zb8_fsl.c:157-206 | after any number of cuts the destination holds the image, with the checksum that was verified, and what is started is never a half copied swapper; all cuts but the last leave the header, and the run area is erased in the end if and only if the last cut left the header or had left the moved part erased |
| ZbFsl.ImageArrived | zb8/zb8/src/zb8_fsl.c:172-182 | the checksum that was verified in the run area holds for the copy |
| ZbFsl.RunAreaMayStay | zb8/zb8/src/zb8_fsl.c:55-56 | in the state that every moving boot passes after its first erase, no header is left, and the moved part is erased if and only if the rest was blank before |
| ZbFsl.RestOfRunStays | zb8/zb8/src/zb8_fsl.c:55-56 | an image for which it is not |

## Left out

- zepboot (`zepboot/zepboot/src/zb_move.c`): an older form of the same step machine with the log as its only state; its
  reload after a reset exchanges the two slots, so that it would add reset-free runs only.
- Multi-entry ATE caches, unaligned flash writes and `k_mutex` of sfcb; `sfcb_write_loc` gives the lock
  up around its write, so mutual exclusion is not claimed.
- SfcbStore.Store.Format: asks for sectors with an empty first ATE to be erased, because `sfcb_format` does not erase them.
- SfcbStore.Store.WriteLoc: covers callers that stay within the declared length, because the check in the source does not hold them to it.
- `sfcb_unmount`, `sfcb_rewind_loc` and the checks for missing arguments and unmounted stores: they add no state.
- `settings_sfcb_compress` as written copies nothing, because its loop runs only while the walk fails
  (`settings_sfcb/settings_sfcb/src/settings_sfcb.c:220`), and the routine of the sfcb README keeps one entry of the id all
  settings share. What settings survive a rotation is therefore not stated.
- SfcbSettings.Settings.Load: is about the log as it is in flash, for the reason above, and a handler that does not fail and reads the whole value.
- The tampering branch of the swap (`zb8/zb8/src/zb8_move.c:159-168`), slot validation, the VERIFY slot and confirmation.
- ZbSwap.Swapper.ImgSwap: takes the answer of `zb_slt_validate` as an input, because it compares with a slot that is not modelled.
- ZbSwapRun.SwapWithCuts: stops at a logged end of the swap, because what the code does then depends on `zb_slt_validate`.
- ZbSwapRun.Boot: is about a boot that finds a run slot that is not valid, because a valid one ends it at once (`ZbSwap.Swapper.ImgSwap`).
- ZbFlash.Flash.Write: does not model that the last bytes of a write are padded to a write block, because slots are written in order and the padding is erased bytes.
- ZbFlash.Flash.Erase: erases one sector at a time; the bounds check for longer ranges is that for a sector.
- Image hashes, signatures, key exchange, the AES block cipher and the checksum polynomials: parameters of the models.
- ZbDfu.Loader.Control: the callbacks for start, validation and the switch to the boot loader are those of
  `zb8/loader/bledfu_loader/src/main.c:81-85`, which sets none of them.
- ZbDfu.Loader.Flush: does not model the erase of the VERIFY slot, which has no part in what is received.
- Notifications and packet counters of the DFU service.
- ZbFsl.Loader.RunCrc: the image lies inside the run area, because the source reads on into whatever follows.
- ZbFsl.BootWithCuts: says when the run area is erased in the end, not that it always is, because that is not so (`ZbFsl.RunAreaMayStay`).
- USB DFU, BLE set-up, Python tools, TLV stepping, slot maps and RAM slots.
