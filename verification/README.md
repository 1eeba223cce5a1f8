# PS2ESDL: verified models

PS2ESDL plays PlayStation 2 games from disc images on USB storage. This project models its algorithmic
cores in Dafny and proves what they are for. Every core appears twice: as a pure specification (a
function, or a relation where the outcome is random) with theorems over all inputs and all runs, and as
imperative code in the shape of the original, with loops, arrays and fields updated in place, proved to
do exactly what the specification says.

| file | core |
|---|---|
| `StreamRing.dfy`, `StreamTheorems.dfy` | the banked read-ahead ring behind `sceCdStRead`, with a refill that may still be under way |
| `StreamRuns.dfy` | whole runs of streaming calls, with transfers to the EE that a refill may overtake |
| `StreamDriver.dfy` | the driver's fields, buffers, refills and transfers, updated in place |
| `Words.dfy`, `CrcTheory.dfy` | machine words as bits; polynomial division in a register of any width |
| `Crc16.dfy` | the table-driven, reflected CRC-16 of the boot-logo check |
| `StrCrc32.dfy` | the title checksum with its inverted test and reversed table |
| `SectorIO.dfy` | logical sectors to slices and device sectors; the search for layer 1 |
| `Masks.dfy`, `Patches.dfy` | masked comparison of words; the pattern scanner and the in-place patcher |
| `History.dfy` | the launch history table |
| `Krom.dfy` | glyph lookup and the shipped Shift-JIS tables |
| `GameListView.dfy` | the scrolling window of the game list |
| `Common.dfy` | an option type and the C integer widths |

`dafny verify dfyconfig.toml` checks everything.

## What the proofs found

* With 1 or 3 to 256 banks a run of streaming calls hands out what a flat sequential reader does **exactly
  when no transfer to the EE outlives the begin of the next refill**, whatever the buffer held before, on
  every disc and whenever the drive finishes its refills; with any other number of banks this is false.
  Reads into IOP memory are copied at once and need no such condition. A read into EE memory, the kind the
  EE's stream requests make (`modules/cdvdfsv/cdvdfsv_internal.c:212`), only queues a transfer
  (`modules/cdvdman/cdvdman_internal.c:591-609`), and the wait for it before the refill is commented out
  (`modules/cdvdman/cdvdman_main.c:448`). `docs/Changelog.txt:734` assumes that the transfer is over before
  the USB device can overwrite the data. The model does not assume it: a refill that begins earlier is
  over all the sectors of that transfer, so none of them is sure to arrive.
* With two banks a run is a flat reader's **exactly when**, besides, the drive has finished at every turn
  that finds a refill outstanding: otherwise a read copies from the refill it has just started (the
  synchronization test is `stbankmax<2`). With more than 256 the 8-bit bank number wraps early.
* From a start or seek on, with up to 256 banks, the drive is asked for each disc sector once. A bank size
  that is a multiple of 65536 is stored as 0 in its 16-bit field, and then every read loops forever.
* `read_sector` is right **exactly when** every turn of its loop starts less than 2^21 sectors into its
  slice (the byte offset is a 32-bit number), starts on a device sector (for 4096-byte sectors), and
  does not run over the end of the slice. A two-sector turn over the end is cut by 2048-byte units
  where device sectors are counted, yet the loop still advances by two sectors. On a device with
  4096-byte sectors, a read of an odd number of sectors takes its last sector through a scratch sector.
  `device_init` allocates that by the static sector size 512, before the device is known, so it is never
  allocated and the bytes pass through address 0: the read delivers the right sectors but **overwrites
  the first 4096 bytes of memory**, and it does so in no other case.
* What the game list draws is aligned, and stays so under one more press of UP or DOWN, in every frame of
  a run **exactly when no frame slips**: recalculates the bottom entry of a list whose window the cursor
  has moved since the last recalculation, while the highlight is not on the row at that end of a window
  of three or more titles. A slip takes a game start that fails, which skips the recalculation
  (`gui/GUI.c:367` jumps over it and `gui/GUI.c:443` comes back), or DOWN in the first frame: for runs
  without a failed start, whatever keys the first frame has (LEFT and RIGHT included), all frames are
  drawn aligned **exactly when** that frame is not DOWN on a list that does not fit such a window.
* A full scan leaves every memory patched at its leftmost non-overlapping matches **exactly when** the
  pattern cannot match at all or no window that begins one to three words inside a patched place can
  match and be changed by a second patch. It also leaves no match behind **exactly when**, further, the
  patch data does not match itself, no window that begins inside a patched place can match, and a window
  that begins before one and can match afterwards had matched already.
* The loader looks for layer 1 where the driver will read it **exactly when** the sector count of layer 0
  is not a multiple of the slice size; otherwise it looks at the start of the slice before.
* The history table keeps its invariant over a run **exactly when** every name has 1 to 15 characters. An
  empty name launches all blank entries; a name of 16 characters, the longest the caller's buffer holds,
  is stored without a terminator and never recognised again.
* The font tables cover **exactly** the symbols, letters and first-level kanji of JIS X 0208, each kanji at
  the slot its row and cell give.
* LEFT and RIGHT go round the lists with games, except that LEFT on the list of the first format and RIGHT
  on that of the last stay there (`gui/GUI.c:340` and `gui/GUI.c:347` stop the counter at the end before
  the search, which then finds the list itself).
* The sample record at `gui/include/OSDHistory.h:11` shows count 14 with two bits after 15 launches. By
  `gui/OSDHistory.c:137-148` the count is 15 then, and at 14 there is still one bit. The model follows
  the code.

## How the models stand to the source

* **Stream.** Positions count whole sectors of 2048 bytes. A target of an unfinished refill holds no value
  until the refill is waited for or the drive reports completion; `done(k)` is the drive's answer at turn
  `k` of a read. A refill belongs to the buffer it was started for, so one that is under way when a ring
  is opened anew still reaches the old buffer. The transfer that turn `k` of a read queues outlives the
  begin of `outlived(k)` refills, unless the next copy to the EE, which waits for it, comes first; a
  sector whose place is refilled before its transfer is over is no longer determined. The buffer of a
  read is not one the drive may still write to. Ring buffers and destinations of EE transfers lie in
  different memories, so neither is the other.
  Sector numbers are taken modulo 2^32 and the bank number modulo 256. The start of a bank is a product
  in the code and a sum in the specification (`BankStartIsProduct`).
* **Checksums.** A word is its bits, most significant first, so widths and lost bits are explicit.
  `char` is signed: for a title byte from 128 on the table index is negative and the model's result is
  `None`.
* **Sectors.** The device is a function from byte addresses to bytes; a request must fit a 32-bit address
  space, and the image must lie on the device. The memory at address 0 is an array of its own. The loop
  of `read_sector` is `Reader.Loop`; `Reader.ReadSectors` adds what follows from its result.
* **Patches.** Addresses are word indices; a scan looks three words past its end.
* **History.** A name that fills its 16 bytes is compared on into the launch count. `rand` is any stream in which every remainder modulo 6 keeps turning up.
* **Game list.** A frame is one turn of the main loop; whether the poll delay has passed is an input. A
  start key counts only without LEFT and RIGHT, and in a run stands for a start that fails; one that
  succeeds ends the run, and so does loading the lists anew, with which another run begins.

## Model

| member | source | states |
|---|---|---|
| StreamRuns.FlatExactlyWhen | modules/cdvdman/cdvdman_main.c:408-502 | for every buffer that fits memory and nonzero bank size, whatever the buffer held and even with a refill into it under way, on all discs and with any drive timing, a run equals a flat reader's just when no transfer to the EE outlives the begin of the next refill, if and only if the bank count is not 2 and at most 256 |
| StreamRuns.TwoBanksExactlyWhen | modules/cdvdman/cdvdman_main.c:437-460 | a run of a two-bank ring is a flat reader's if and only if the drive has finished at every turn that finds a refill outstanding and the transfers are in time |
| StreamRuns.RunInStep | modules/cdvdman/cdvdman_main.c:423-502 | from a state in step, with up to 256 banks, any sequence of start, seek and read calls, to either memory, hands out what a flat reader does if and only if its turns are settled and its transfers in time |
| StreamRuns.DeliversFlat | modules/cdvdman/cdvdman_main.c:423-490 | the same for one read, whatever calls follow while its last transfer is under way |
| StreamRuns.HazardsCover | modules/cdvdman/cdvdman_main.c:439-460 | the first refill that can overtake the transfer of a turn, in the same read or a later call, is over all the sectors the turn copied |
| StreamRuns.ExposedAreAsked | modules/cdvdman/cdvdman_internal.c:602 | what later calls may begin while the last transfer is under way is all they ask of the drive until the next copy to the EE, which waits for it |
| StreamRuns.TurnArrives | modules/cdvdman/cdvdman_main.c:439-460 | the sectors of a turn arrive as the flat reader's if and only if the turn is settled and no refill begins before their transfer is over |
| StreamRuns.IopRunInTime | modules/cdvdman/cdvdman_main.c:440 | a run that reads only into IOP memory is always in time |
| StreamRuns.RunWaitedUnlessTwo | modules/cdvdman/cdvdman_main.c:437 | but for two banks no turn ever copies from an unfinished refill |
| StreamTheorems.ReadIsFlat | modules/cdvdman/cdvdman_main.c:423-490 | with up to 256 banks a read of any length stays in step, and what it copies are the next sectors of the disc if and only if every turn is settled: with two banks, finds no refill outstanding or a finished one |
| StreamTheorems.FlatIsDisc | modules/cdvdman/cdvdman_main.c:423-490 | the flat reader hands out the disc sector by sector, sector numbers modulo 2^32 |
| StreamTheorems.TurnInStep | modules/cdvdman/cdvdman_main.c:433-484 | one turn of the loop copies a nonempty run of sectors, the next ones if and only if it is settled, and keeps the invariant, whether or not a refill is under way |
| StreamTheorems.CurrentBankSettled | modules/cdvdman/cdvdman_main.c:437-440 | no sector of the bank being copied is the target of an unfinished refill |
| StreamTheorems.LeaveBank | modules/cdvdman/cdvdman_main.c:446-483 | the two-bank refill, the odd last bank and the skipped refill all keep every fetched sector in its place |
| StreamTheorems.RefillsOnlyConsumedBanks | modules/cdvdman/cdvdman_main.c:449-478 | the read-ahead counter leads the reader by the sectors fetched but not delivered; a refill overwrites exactly the consumed sectors, inside the ring |
| StreamTheorems.FetchedOnce | modules/cdvdman/cdvdman_main.c:449-478 | the reads a call asks of the drive are consecutive runs of sectors, without gap or overlap |
| StreamRuns.FetchedOnceInRun | modules/cdvdman/cdvdman_main.c:423-502 | in any run, from a start or seek on, the drive is asked for the whole ring and then for consecutive runs of sectors up to the read-ahead counter |
| StreamRuns.TwoBanksNotFlat | modules/cdvdman/cdvdman_main.c:437-460 | with two banks the ring is not a flat reader, even without transfers to the EE |
| StreamTheorems.TwoBanksBreak | modules/cdvdman/cdvdman_main.c:437-460 | with two banks the sector behind both banks is copied from the refill just started |
| StreamRuns.ManyBanksNotFlat | modules/cdvdman/cdvdman_main.c:477-479 | nor with more than 256 |
| StreamTheorems.ManyBanksBreak | modules/cdvdman/cdvdman_main.c:477-481 | behind bank 255 comes the sector fetched for the place behind the last bank |
| StreamTheorems.ReadReturnsExactlyWhen | modules/cdvdman/cdvdman_main.c:433-434 | some number of turns delivers everything, and the read returns, if and only if nothing is asked for or the banks are not empty |
| StreamTheorems.TurnsAreRead | modules/cdvdman/cdvdman_main.c:433-484 | the turns that deliver everything are the read as specified |
| StreamTheorems.StartInStep | modules/cdvdman/cdvdman_main.c:493-502 | starting at a sector puts the ring in step there |
| StreamRing.InitShape | modules/cdvdman/cdvdman_main.c:411-416 | opening a ring gives whole banks and fields in range, for every bank count |
| StreamRing.OpenedShape | modules/cdvdman/cdvdman_main.c:408-420 | so it does whatever the buffer holds and whatever refill is still under way |
| StreamRing.OpenedSizes | modules/cdvdman/cdvdman_main.c:411-418 | a bank has the whole sectors that fit, its size kept in 16 bits; the ring has as many banks as asked for and begins at bank 0, offset 0 and sector 0 |
| StreamDriver.Cdvdman.StInit | modules/cdvdman/cdvdman_main.c:408-420 | the fields after opening a ring, also while a refill is under way; only whole banks of the buffer are used |
| StreamDriver.Cdvdman.StStart | modules/cdvdman/cdvdman_main.c:493-502 | the ring is refilled as specified and in step at the sector; a transfer under way is overtaken by the refill as specified |
| StreamDriver.Cdvdman.StSeekF | modules/cdvdman/cdvdman_main.c:580-589 | the same after a seek |
| StreamDriver.Cdvdman.StRead | modules/cdvdman/cdvdman_main.c:423-490 | the caller's buffer is what has arrived and the new state is as specified; the rest of the buffer is untouched; later calls do to the last transfer what the specification of runs says; and in step the buffer holds the flat reader's sectors if and only if the turns are settled and the transfers in time |
| StreamDriver.Cdvdman.TurnToEE | modules/cdvdman/cdvdman_main.c:433-484 | one turn that queues a transfer: what has arrived of it once the turn's own refill has begun, and what is left to overtake |
| StreamDriver.Cdvdman.TurnToIOP | modules/cdvdman/cdvdman_main.c:433-484 | one turn that copies at once, while a transfer of an earlier read may be under way |
| StreamDriver.Cdvdman.NextBank | modules/cdvdman/cdvdman_main.c:446-483 | the end of a bank, as specified |
| StreamDriver.Cdvdman.ReadRingBuffer | modules/cdvdman/cdvdman_internal.c:985-987 | the refill is started in the present buffer, and a transfer under way loses the sectors whose places it takes |
| StreamDriver.Cdvdman.ReadNoCB | modules/cdvdman/cdvdman_internal.c:187-197 | wait for the drive, then start the read |
| StreamDriver.Cdvdman.EEMemCpy | modules/cdvdman/cdvdman_internal.c:591-609 | the transfer before is waited for; this one is queued, over the sectors and to the place given |
| StreamDriver.Cdvdman.InitFrom | modules/cdvdman/cdvdman_internal.c:992-997 | back to the start of the ring, at the given sector |
| CrcTheory.EntryFeeds | gui/crc16.c:43 | one table look-up and byte shift is eight steps of bit-serial division |
| CrcTheory.BitSerialLinear | gui/crc16.c:5-14 | division is linear in message and start value |
| CrcTheory.BurstDetected | gui/crc16.c:37-48 | two messages that differ only inside a window no longer than the register never have the same remainder |
| CrcTheory.BurstBoundIsSharp | gui/crc16.c:37-48 | a window one bit longer can hide an error |
| CrcTheory.RemainderParity | gui/crc16.c:37-48 | with an even number of terms in the polynomial, the remainder has an odd number of ones exactly when just one of message and start value has |
| Crc16.PolynomialBits | gui/include/crc16.h:1 | 0x8005 has its constant term, and reversed it is 0xA001 |
| Crc16.Engine.InitCRC16Table | gui/crc16.c:5-14 | entry i of the table is eight division steps of i at the top of the word |
| Crc16.Engine.Reflect | gui/crc16.c:19-35 | the low nBits bits in reverse order, zeros above |
| Crc16.ReflectInvolution | gui/crc16.c:19-35 | reflecting twice gives back the low nBits bits |
| Crc16.Engine.CalculateCRC16 | gui/crc16.c:37-48 | the result is the bit-serial remainder of the buffer, bytes least significant bit first |
| Crc16.Engine.ReflectAndXORCRC16 | gui/crc16.c:50-52 | the word reversed |
| Crc16.ChecksumIsDivision | gui/crc16.c:37-48 | the table form equals bit-by-bit division for every buffer and start value |
| Crc16.ChecksumSplits | gui/crc16.c:37-48 | the checksum of a concatenation continues from that of its first part |
| Crc16.ChecksumLinear | gui/crc16.c:37-48 | the checksum of a difference is the difference of the checksums |
| Crc16.ReportedChecksum | gui/crc16.c:37-52 | the reported value is the low-end-first CRC with polynomial 0xA001 |
| Crc16.ResidueIsZero | gui/crc16.c:37-52 | appending the reported checksum, low byte first, gives 0 |
| Crc16.ShortDifferenceDetected | gui/crc16.c:37-48 | different buffers whose bits differ only inside 16 consecutive positions have different checksums |
| Crc16.AdjacentBytesDetected | gui/crc16.c:37-48 | so do buffers that differ only in two adjacent bytes |
| Crc16.OddDifferenceDetected | gui/crc16.c:37-48 | so do buffers of one length that differ in an odd number of bits, however far apart |
| StrCrc32.InvertedIsOpposite | gui/system.c:190-194 | the inverted steps do to a word what ordinary steps do to one with the opposite top bits |
| StrCrc32.TableIsOrdinary | gui/system.c:186-196 | the entry stored at 255-table is the ordinary entry of that index |
| StrCrc32.BuildTable | gui/system.c:183-196 | the whole table is the ordinary one, and crc and count are left at 0 |
| StrCrc32.Consumed | gui/system.c:198-201 | the bytes that count: none but the last is the NUL, and if it is not, they are maxLength+1 (one, if maxLength is negative) |
| StrCrc32.CalculateStrCrc32 | gui/system.c:181-204 | if all bytes read are below 128, the bit-serial remainder of their bits from 0, without a final exclusive-or; otherwise the table index leaves the table |
| StrCrc32.PolynomialTerms | gui/system.c:193 | the polynomial has exactly the terms in x to the 26, 23, 22, 16, 12, 11, 10, 8, 7, 5, 4, 2, 1 and 0 |
| StrCrc32.ChecksumOfOne | gui/system.c:181-204 | the checksum of the byte 0x01 is the polynomial |
| StrCrc32.TitlesApart | gui/GUI.c:422 | two ASCII titles that differ only within four adjacent characters, all of them among those read, give different checksums, the part of the image file name formed from the title |
| SectorIO.FaithfulExactlyWhen | modules/cdvdman/sector_io.c:42-84 | a read fills every buffer with the image's sectors on every device if and only if each turn's offset fits, is aligned and does not cross a slice end |
| SectorIO.LowMemoryKeptExactlyWhen | modules/cdvdman/sector_io.c:55-77 | what `SectorIO.Reader.Loop` leaves at address 0, reading through the null scratch pointer, is on every device what was there if and only if device sectors are smaller than 4096 bytes or the number of sectors is even |
| SectorIO.Reader.Loop | modules/cdvdman/sector_io.c:42-84 | the loop, whatever the number of its turns, leaves the specified bytes in the buffer and in the scratch sector (address 0 while the pointer is null), which only the last turn of an odd read on 4096-byte sectors writes, and advances the offset |
| SectorIO.ScratchHolds | modules/cdvdman/sector_io.c:55-77 | what goes through the scratch sector is the device sector that begins with the last sector read, if that turn is good |
| SectorIO.Reader.DeviceInit | modules/cdvdman/sector_io.c:93-101 | the scratch sector is allocated by the sector size known before the device is found |
| SectorIO.Reader.Started | modules/cdvdman/sector_io.c:23-40 | with the static sector size the scratch pointer is null when reading begins, whatever device is found |
| SectorIO.GoodReadIsFaithful | modules/cdvdman/sector_io.c:50-81 | such a read leaves sector after sector, each from its own slice and place |
| SectorIO.ImageByteAt | modules/cdvdman/sector_io.c:50-71 | the image is the slices one behind the other: byte x of sector r of slice number s lies at part_LBA[s]*sector_sz + r*2048 + x on the device |
| SectorIO.OutsideUntouched | modules/cdvdman/sector_io.c:50-81 | nothing outside the requested part of the buffer changes |
| SectorIO.TurnFits | modules/cdvdman/sector_io.c:51-53 | a turn takes one or two sectors, nothing wraps, and the rest is again a request |
| SectorIO.DeviceAddress | modules/cdvdman/sector_io.c:71 | the 32-bit device address is the sector's place if the offset is below 2^21 sectors and aligned, and before it otherwise |
| SectorIO.TurnLength | modules/cdvdman/sector_io.c:61-65 | a turn copies its bytes, less one device sector when cut at the slice end |
| SectorIO.CutTurnShows | modules/cdvdman/sector_io.c:64-65 | a turn over the end of a slice makes the read wrong |
| SectorIO.WrongAddressShows | modules/cdvdman/sector_io.c:71 | a turn from another address makes the read wrong |
| SectorIO.Reader.ReadSectors | modules/cdvdman/sector_io.c:42-84 | the buffer as specified, right for good reads, the rest untouched; the scratch sector (address 0 while the pointer is null) too, but for odd reads on 4096-byte sectors; the offset advanced by n*2048 modulo 2^32 |
| SectorIO.Reader.Turn | modules/cdvdman/sector_io.c:51-75 | one turn, including the partial read through the scratch sector or address 0 |
| SectorIO.ProbeLayer1 | gui/system.c:536-586 | without division: the offset is less than a slice; if it is not 0, the slice begins that far before the sector count, and if it is, the slice ends there (none for a count of 0); the layer break is 16 less, modulo 2^32 |
| SectorIO.ProbeExactlyWhen | gui/system.c:536-565 | on every device the bytes the loader examines are those `read_sector` delivers for logical sector layerBreak+16, if and only if the count is no multiple of the slice size |
| Patches.ScanPattern | EE_core/patches.c:94-111 | the first match of the range, or none |
| Patches.MatchMeans | EE_core/patches.c:98-103 | a position matches if and only if its four words, each under its mask, are those of the pattern |
| Patches.FirstIsLeast | EE_core/patches.c:97-110 | the position returned matches and none before it does; none is returned only if nothing matches |
| Patches.MatchesAreAll | EE_core/patches.c:97-108 | the list of matches is ascending and complete |
| Patches.OnlyList | EE_core/patches.c:97-108 | there is only one such list |
| Patches.SearchScan | EE_core/patches.c:67-81 | memory after a full scan, with settled patch data the original patched at its leftmost matches, or after the first match when told to stop there |
| Patches.PatchesLeftmostExactlyWhen | EE_core/patches.c:72-80 | a full scan leaves every memory patched at its leftmost non-overlapping original matches if and only if the pattern cannot match or no window that begins inside a patched place can match and be changed by a second patch |
| Patches.SettledSweep | EE_core/patches.c:72-80 | then memory is the original with the patch data at exactly those places |
| Patches.WrittenWords | EE_core/patches.c:75 | every such place holds the patch data and every other word is as it was |
| Patches.RematchSpoils | EE_core/patches.c:77 | otherwise some memory ends up different |
| Patches.FullScanExactlyWhen | EE_core/patches.c:72-80 | a full scan leaves every memory so patched and without a match in the range if and only if the pattern cannot match, or no window inside a patched place can match and one before it only if it had matched already |
| Patches.NoMatchRemains | EE_core/patches.c:72-80 | after a full scan with such patch data nothing in the range matches |
| Patches.UncleanBehind | EE_core/patches.c:72-80 | otherwise some memory is left with a match that reaches into a patched place from before |
| Masks.ImpliesMeans | EE_core/patches.c:99-102 | the bitwise condition on two masked comparisons holds if and only if every word that passes the first passes the second |
| Patches.SecondScanIsIdle | EE_core/patches.c:72-80 | a second full scan finds nothing and changes nothing |
| Patches.ForeignWordsAreClean | EE_core/patches.c:99-102 | a patch none of whose words passes for a pattern word is clean |
| Patches.BlockingModulePatch | EE_core/patches.c:42-64 | by the ascending list of all matches: with n of them only the word at the given unsigned index from the n-th, in a 2^30-word address space, is rewritten, to opcode 3 over bits 2 to 27 of the hook, and the jump target of the old word saved; with fewer nothing changes; for n = 0 the word before the range counts as the match |
| Patches.IndexReaches | EE_core/patches.c:60-61 | an index that runs over the top of the 32-bit address space rewrites a word before the match |
| Patches.ScanTimes | EE_core/patches.c:49-54 | n scans end one word behind the n-th match of the list of all matches |
| Patches.JumpRoundTrip | EE_core/main.h:37-38 | the address read back from a built jump is the original exactly for word-aligned addresses below 2^28 |
| History.EveryRunIsGood | gui/OSDHistory.c:122-188 | in every table of every run from the empty one, with names of 1 to 15 characters: counts 1 to 64, as many bits as the count says, distinct names |
| History.RunIsGoodExactlyWhen | gui/OSDHistory.c:122-188 | all tables of a run are so if and only if every name launched has 1 to 15 characters |
| History.GoodExactlyWhen | gui/OSDHistory.c:122-188 | from any such table one call leads to another if and only if the name has 1 to 15 characters |
| History.NextKeepsGood | gui/OSDHistory.c:122-188 | one call keeps that, changes at most one entry, leaves the name in exactly one, and evicts only without a blank slot, then the first least launched |
| History.LaunchKeepsGood | gui/OSDHistory.c:134-160 | one launch of an entry keeps its invariant, counts up to 64 and then falls to 63, and never reaches the clamp |
| History.CareerCounts | gui/OSDHistory.c:137-159 | the count of an entry after any number of launches |
| History.FreeBitExists | gui/OSDHistory.c:145 | whenever the random loop runs there is a clear bit |
| History.LongNameUnknown | gui/OSDHistory.c:134-182 | a name of 16 characters is not recognised however often it was launched, so every launch makes another record |
| History.Recorder.AddHistoryRecord | gui/OSDHistory.c:122-188 | for names up to 16 characters, the table and the old-entries file take one of the specified steps, and a good table stays good if and only if the name is good |
| History.NewRecordFields | gui/OSDHistory.c:163-188 | a name not in the table takes one slot, blank if one is: that name and date, count 1, bit 0 alone, shift amount 0, the padding as it was; every other entry stays |
| History.LaunchFields | gui/OSDHistory.c:134-160 | a known name changes only entries of that name: name, date and padding stay; the count is as stated; when a bit is set it was clear, it alone changes and the shift amount is its number; otherwise the shift amount changes only to 7, when the count of a full entry falls back |
| History.DatesAreOfRecords | gui/OSDHistory.c:122-188 | in every run with good names, every used entry has the date of the launch that recorded it and has kept name, date and padding since |
| History.Recorder.LaunchAll | gui/OSDHistory.c:122-161 | entries of the name are launched, the others stay; otherwise the first least launched entry is found |
| History.Recorder.DrawFreeBit | gui/OSDHistory.c:145 | the random loop ends, on the first draw that is a clear bit |
| History.Recorder.PickSlot | gui/OSDHistory.c:165-179 | the blank slot that has as many blank ones before it as the next draw modulo their number says, else the least used entry |
| Krom.GetFontxChar | gui/krom.c:253-293 | the glyph's offset; for ordered tables its slot is the rank of the code, and none exactly when no table has it |
| Krom.SlotOfTable | gui/krom.c:266-289 | in whatever order the tables are, the first one that has the code counts, and each table before it adds its width |
| Krom.SlotIsRank | gui/krom.c:269-289 | a code has a slot exactly when a table covers it, and the slot is the number of covered codes below it |
| Krom.SlotsIncrease | gui/krom.c:281-289 | slots increase with the code |
| Krom.SlotBelowTotal | gui/krom.c:281-289 | slots are below the number of covered codes |
| Krom.EverySlotUsed | gui/krom.c:281-289 | every slot below that number belongs to a code |
| Krom.TableInOrder | gui/krom.c:351-403 | the 51 shipped tables are in order and cover 3489 codes |
| Krom.GlyphExactlyWhen | gui/krom.c:351-403 | a code has a glyph if and only if its trail byte is one of Shift-JIS and its row and cell of JIS X 0208 are assigned to a symbol, letter or first-level kanji |
| Krom.KanjiExactlyWhen | gui/krom.c:371-402 | from 0x889f on: if and only if it is at most 0x9872 and its low byte is in 0x40..0x7e or 0x80..0xfc |
| Krom.KanjiSlot | gui/krom.c:371-402 | a kanji of row r and cell k has slot 524 + 94*(r-16) + k-1 |
| Krom.ShippedGlyphs | gui/krom.c:253-293 | in the shipped font the search finds a glyph exactly for those codes, that of a kanji at 222 + 30 times that slot |
| Krom.GlyphsFillTheFont | gui/krom.c:484-497 | every glyph lies behind the tables and inside the allocated bytes, which the glyphs fill |
| GameListView.AlignedExactlyWhen | gui/GUI.c:312-443 | from freshly loaded lists, over runs with switches of list and failed starts anywhere: every frame that draws is aligned, and would be after one more cursor key, if and only if no frame slips |
| GameListView.FirstFrameDecides | gui/GUI.c:312-390 | whatever the first frame does, every frame of every continuation without a failed start is drawn aligned if and only if the first frame is not DOWN on a list that does not fit a window of three or more |
| GameListView.RunFollows | gui/GUI.c:312-443 | without a slip, every cursor stays on a row of a window over existing titles, the bottom entry is that of the window last recalculated, and the list just recalculated is in step |
| GameListView.RecalculateFollows | gui/GUI.c:371-377 | the recalculation brings a list in step if and only if it has not slipped |
| GameListView.SlipShows | gui/graphics.c:296-300 | a list that has slipped is drawn wrong at once or after one more UP or DOWN |
| GameListView.Reached | gui/GUI.c:338-351 | LEFT or RIGHT pressed often enough shows any list with games, its cursor where it was |
| GameListView.AllStayInStep | gui/GUI.c:316-377 | one frame that starts no game, including a switch of lists, keeps every list in step |
| GameListView.FirstFrame | gui/GUI.c:325-376 | the first frame of a loaded list loses step only in that case, and then by one title |
| GameListView.FrameKeepsStep | gui/GUI.c:316-376 | the cursor keys and the recalculation keep a list in step |
| GameListView.SearchFinds | gui/GUI.c:114-129 | the search finds the nearest list with games in its direction, and with four tries misses only if all are empty |
| GameListView.Menu.SwapDisplayedGameList | gui/GUI.c:109-135 | the first nonempty list going round in the direction, and how many titles it shows |
| GameListView.Menu.OneFrame | gui/GUI.c:312-378 | the frame that `CursorMoves`, `KeysSwitch` and `FrameLeaves` describe; it leaves the loop to start a game exactly on a start key without LEFT and RIGHT, and LEFT and RIGHT set the number of shown titles |
| GameListView.CursorMoves | gui/GUI.c:316-336 | in a ready frame UP selects the title before and DOWN the one behind, round the end; the highlight moves with it while there is a row, else the window does; round the end it goes to the last row over the last titles or the first over the first; in every other frame the cursor stays |
| GameListView.KeysSwitch | gui/GUI.c:338-350 | LEFT shows the next list with games below, and if there is none the last of all; RIGHT the next above, and if there is none the first of all; but on the list of the first format LEFT stays, and on that of the last RIGHT |
| GameListView.FrameLeaves | gui/GUI.c:316-377 | the cursors of the other lists stay; only the bottom entry of the list then on show moves, no farther than into a window below the selected title, and none when a game is started |
| GameListView.SearchNearest | gui/GUI.c:109-135 | forward the next list with games at or above the given one and failing that the first, backward the next at or below and failing that the last; none exactly when all are empty |
| GameListView.Menu.Redraw | gui/graphics.c:296-300 | the first title and the number of titles drawn; in step, the selected index less the highlighted row, and existing titles only |

## Left out

- StreamDriver.Cdvdman.StRead: does not model the error value or a bank count of 0, for which opening the ring divides by zero.
- History.Recorder.AddHistoryRecord: does not model names of more than 16 characters, which the buffer of its only caller cannot hold, nor loading and saving the table.
- SectorIO.Reader.ReadSectors: does not model a failing device.
- SectorIO.ProbeLayer1: does not model the recalculated sector count of images with hidden data, nor plain ISO images.
- The delayed-read and fixed-address branches of `patch_ELF` and its dispatch on the mode: a first match and a single store.
- `sceCdStStop`, `sceCdStPause`, `sceCdStStat`: a synchronization and constants.
- `sceCdIntToPos` and `sceCdPosToInt`: a small bounded domain.
- RPC servers, IOP resets, interrupts, semaphores, event flags, and the DMA of anything but streamed sectors.
- Drawing, textures, pad polling, menus, skins, the loading of lists, plugins, patches and ELF files.
