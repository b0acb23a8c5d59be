# Protocols and formats of the boot loader, verified in Dafny

This project models the parts of the boot loader where a correct result depends on more than
one function, and proves what they promise: over every timed interleaving, over every sequence
of resets, over every map of bad blocks, over every way of splitting a transfer. Where the code
does not do what its documentation says, the model follows the code, a lemma gives the failing
case, and another one gives the exact condition under which the promise holds.

`dafny verify dfyconfig.toml` checks the whole project. Nothing was executed.

## What is modelled

| modules | part of the system |
|---|---|
| `I2cArbitration`, `I2cLockstep`, `I2cDriver` | two masters on one I2C bus with two claim lines |
| `Dcache`, `DcacheRange` | a write-back data cache beside DMA, and the ARMv7 range operations |
| `Post`, `PostLayer`, `PostLifetime`, `PostFlag` | power-on self tests that survive the resets they cause, in one pass and over many |
| `Autoboot` | recognition of the key strings that interrupt autoboot |
| `Nand`, `NandDriver` | NAND erase, write and read around bad blocks |
| `Fastboot`, `FastbootDevice` | the device side of the fastboot protocol |
| `Gpt` | writing and verifying a GUID partition table |
| `MultiImage` | multi-file images, from mkimage to the boot command |
| `BootpIds`, `PreConsole`, `SdramBanks`, `Fuses` | the BOOTP ID cache, the early console buffer, bank mapping, fuses |
| `Basics`, `Multiples` | shared definitions, and arithmetic of multiples |

The pure side of each part is a set of functions or relations and the theorems about them. The
code that works in place is a class or a method with loops, proved equal to those functions or
to satisfy those relations.

## Where code and documentation part

* **I2C claim.** The documentation ends a failed claim with a panic. The driver prints a message
  and returns 0, so its caller uses the bus without owning it
  (`I2cArbitration.DriverNeverExcludes`). With the error reported, mutual exclusion holds exactly
  if the slew times of both sides, and one microsecond, add up to at least twice the settling time of a line
  (`I2cArbitration.MutualExclusionIffSafe`). The driver also polls the other line from the end of
  the slew time on; the documentation has one check first. The documentation takes a timeout to mean
  that the other side hangs: two sides with equal delays that start together keep each other from
  the bus until both give up (`I2cLockstep.LockstepRun`). The tie is broken within the wait time if
  one side's retry time is longer than the other's by the slew time, two passes of a loop and the
  settling time (`I2cDriver.Arbiter.SelectBackOff`).
* **POST.** The number of the test under way is or-ed into the word kept over a reset and is never
  cleared, and a test that runs both before and after relocation is resumed in the first group. One
  pass survives resets on all hardware exactly if the numbers nest, starting with the one left in the
  word, and there is no such test (`Post.FaithfulIff`). As normal boots keep the word, all later passes
  do so exactly if at most one test of the normal mode may reset (`PostLifetime.FaithfulForeverIff`).
  A failure saved with the number stays in the word as well: a later pass with a reset ends with the
  failure flag set although nothing failed in it, whatever the table (`PostFlag.FlagRightIff`, with a
  run in `PostFlag.StaleFailure`).
* **Autoboot keys.** The code compares a window of the last characters and finds every occurrence
  (`Autoboot.PasswdAbort`). The documentation describes a single match counter; that rule misses
  input exactly for the keys described in `Autoboot.CompleteIffNoFallback`, and the documented
  advice is sufficient but not necessary.
* **NAND.** Erasing a length does not always prepare the flash for writing that length
  (`Nand.PlainEraseIff`); the spread variant does (`NandDriver.Flash.EraseWriteRead`). A verified
  write that leaves out pages of 0xff reads back only what it programmed.
* **GPT.** The backup entries go to block -33, the documentation says -34. A sum that wraps
  around is accepted (`Gpt.WrapAccepted`). Verifying against the list that was just written fails
  exactly if the last partition was given no size, or if block numbers have 32 bits and the end of
  a partition wraps around (`Gpt.PlacedMatchesIff`, `Gpt.RestoreAndVerify`); with 64 bits the check
  repeats the wrapped sum and passes.
* **Cache ranges.** Rounding the start up can wrap to 0, and then lines outside the buffer are
  invalidated (`DcacheRange.InvalExactlyInside`); the flush loop does not end if the range reaches
  into the last line of the address space (`DcacheRange.FlushEnds`).
* **Fastboot.** A packet is not ended with a NUL, so a short one is dispatched on what an earlier
  transfer left behind it in the buffer. The command found is that of the packet's own text exactly
  if the packet is not a beginning of a command that the leftovers complete (`Fastboot.DispatchIff`);
  the answer depends on the packet alone exactly if, besides, it is not `oem` in front of leftovers
  (`Fastboot.OwnAnswerIff`). From every state, two packets call any command by its first letter
  (`Fastboot.StaleInTwo`): `Xeboot` and `r` reboot (`Fastboot.OneLetterReboots`). A host that sends
  only whole commands is not affected (`Fastboot.WholeIff`, `Fastboot.SessionByText`). If the command
  completed in this way is `download`, it has no argument and the device is lost (`Fastboot.LostIff`,
  `Fastboot.LostInTwo`); a refused download does not lead there, as its colon is overwritten
  (`Fastboot.DownloadLeavesNoTrap`). Commands of up to 4095 bytes are accepted, no INFO response is
  ever sent, and a refused download leaves an empty image.
* **BOOTP IDs.** A full cache is moved down by the size of a long; where that is eight bytes the ID
  sent before the newest one is forgotten (`BootpIds.HoldsLastIff`).
* **Fuses.** Leaving out bits that are blown already is recommended as equivalent. In the driver that
  reloads the shadow registers it also leaves out the reload if no bit remains (`Fuses.MaskingIff`).
* **Multi-file images.** mkimage keeps the size of a component in an int. It gives up on an empty
  component and on most of 2^31 bytes or more, writes nothing of one of 2^32 - 1 bytes, and only the
  low part of larger ones (`MultiImage.TooLarge`). The reader adds the rounded sizes up in an unsigned
  long. An image comes back exactly if all components are of 1 to 2^31 - 1 bytes and the address of
  the last one fits an unsigned long (`MultiImage.FaithfulIff`); two components of 2^31 - 1 bytes put
  a third one out of reach of 32 bits (`MultiImage.ThirdOutOfReach`). For a table from elsewhere the
  rounding wraps as well, for sizes just below 2^32 (`MultiImage.ReaderAddressIff`,
  `MultiImage.RoundingWraps`, `MultiImage.SumWraps`).

## What is taken as given

* A change of a claim line is visible to the other side after at most a given time, and until then
  may read as either value. A pass through a polling loop takes some time up to a given one. Reading
  and writing a line may fail at any time.
* The cache may fill, write back and replace any line at any time.
* Resets during POST happen only while a test marked for it executes for the first time
  (`Post.Tame`).
* Programming NAND leaves the bitwise and of old contents and data; erasing sets all bits.
* Blocks of the flash are whole pages.
* write() to a file writes all that it is asked to, and fails with -1 if that is a negative number;
  an empty file cannot be mapped into memory. On Linux one write() moves at most 0x7ffff000 bytes, so
  there mkimage also gives up on components of the last 4095 sizes below 2^31.
* An unsigned long, and a block number, is a word of some size; block numbers have 32 or 64 bits.
* Any blocks of a disk may refuse to be written; all of them can be read.
* The checksums of the partition table are arbitrary functions of what they cover.
* What the flash layer answers to fastboot, what the hardware does in a test, which bits can be
  programmed, are parameters.

## Model

| member | source | states |
|---|---|---|
| `I2cArbitration.MutualExclusionIffSafe` | drivers/i2c/muxes/i2c-arb-gpio-challenge.c:37-86 | over every timed interleaving of both sides, resets included, the bus is never used by both, if and only if one side can never use it, or both report timeouts and twice the settling time is at most the sum of the slew times plus one |
| `I2cArbitration.DriverNeverExcludes` | drivers/i2c/muxes/i2c-arb-gpio-challenge.c:78-86 | with the timeout returned as 0, no choice of delays gives mutual exclusion |
| `I2cArbitration.ConflictNeedsTimeout` | doc/README.i2c:11-53 | with slew times that are long enough, two users at once need one that has timed out with its line released |
| `I2cArbitration.RunInv` | drivers/i2c/muxes/i2c-arb-gpio-challenge.c:37-86 | the invariant of all runs: what each side's line has shown since when, and when the other side was read |
| `I2cArbitration.OwnersExclude` | doc/README.i2c:35-53 | the invariant leaves no room for two owners that both read the other line as released |
| `I2cArbitration.RaceRun` | doc/README.i2c:35-43 | too short slew times: a run in which both sides read the other line as released |
| `I2cArbitration.TimeoutRun` | drivers/i2c/muxes/i2c-arb-gpio-challenge.c:78-86 | a run in which a side that timed out uses the bus beside its owner |
| `I2cDriver.Arbiter.Select` | drivers/i2c/muxes/i2c-arb-gpio-challenge.c:37-86 | a call is a run of the protocol and ends in wait + slew + 2 retry times; 0 with the line asserted means that the last reading found the other line released and the own one asserted for the slew time; a free bus is taken after one slew time; a timeout means that the other line was read all the time, with bounded gaps, and every reading found it asserted |
| `I2cDriver.Arbiter.SelectFreed` | doc/README.i2c:51-60 | a bus that gets free a retry time before the wait time is over is always obtained |
| `I2cDriver.Arbiter.SelectWindow` | drivers/i2c/muxes/i2c-arb-gpio-challenge.c:47-78 | so is a bus that is free only for one slew and retry time and two passes, whatever its line does before and after |
| `I2cDriver.Arbiter.SelectBackOff` | doc/README.i2c:45-53 | so the tie with another side is broken if its back-off lasts longer than ours by the slew time, two passes and the settling time |
| `I2cLockstep.LockstepRun` | drivers/i2c/muxes/i2c-arb-gpio-challenge.c:47-86 | for all delays, equal on both sides: a run without resets or false readings in which both sides try for the wait time and give up, and the bus was never used |
| `I2cLockstep.BackOffShows` | doc/README.i2c:45-53 | in every run, a side that backs off shows a released line from the settling time on until its retry time is over |
| `I2cDriver.Arbiter.Round` | drivers/i2c/muxes/i2c-arb-gpio-challenge.c:47-78 | one round is protocol steps only, its duration and the time between readings are bounded, and it fails only on faulty lines |
| `I2cDriver.Arbiter.Watch` | drivers/i2c/muxes/i2c-arb-gpio-challenge.c:58-70 | polls until released, unreadable or the retry time is over, and which of the three |
| `I2cDriver.Arbiter.BackOff` | drivers/i2c/muxes/i2c-arb-gpio-challenge.c:72-77 | releases the line, or faults, and waits |
| `I2cDriver.Arbiter.Claim` | drivers/i2c/muxes/i2c-arb-gpio-challenge.c:50-54 | asserts the line and lets the slew time pass, or faults |
| `I2cDriver.Arbiter.Deselect` | drivers/i2c/muxes/i2c-arb-gpio-challenge.c:24-35 | gives the bus back unless the line cannot be written |
| `Dcache.ReceivedCoherent` | doc/README.arm-caches:24-34 | invalidate, transfer, invalidate: in every run of CPU, device and cache the CPU then reads the device's last write at every byte of the buffer |
| `Dcache.FlushedCoherent` | doc/README.arm-caches:20-22 | after a flush memory has the CPU's last writes, at every later moment |
| `Dcache.FirstInvalidationNeeded` | doc/README.arm-caches:25-29 | without the invalidation before the transfer a replaced dirty line overwrites the device's data, from any state |
| `Dcache.SecondInvalidationNeeded` | doc/README.arm-caches:30-34 | without the one after it the CPU reads a line filled too early |
| `Dcache.NeighbourKept` | doc/README.arm-caches:36-42 | a byte whose line is not invalidated keeps the CPU's last write, whatever happens to the rest of the line |
| `Dcache.DisabledCoherent` | arch/arm/cpu/armv7/cpu.c:39-60 | flush, disable, invalidate leaves no valid line and every byte in memory as the CPU last saw it |
| `Dcache.IdleCleans` | arch/arm/lib/cache-cp15.c:199-218 | the flush leaves no dirty line, whatever the cache fills meanwhile |
| `DcacheRange.InvalRange` | arch/arm/cpu/armv7/cache_v7.c:213-243 | the addresses invalidated, in order, on 32 bits |
| `DcacheRange.FlushRange` | arch/arm/cpu/armv7/cache_v7.c:201-211 | the addresses flushed, in order |
| `DcacheRange.InvalExactlyInside` | arch/arm/cpu/armv7/cache_v7.c:213-243 | exactly the lines wholly inside the buffer are invalidated, if and only if rounding the start up does not wrap around above a line |
| `DcacheRange.FlushExactlyTouched` | arch/arm/cpu/armv7/cache_v7.c:201-211 | exactly the lines that the buffer touches are flushed |
| `DcacheRange.FlushEnds` | arch/arm/cpu/armv7/cache_v7.c:205-210 | the flush loop ends if and only if the end is not in the last line of the address space |
| `DcacheRange.NeighbourSafe` | doc/README.arm-caches:36-42 | however a buffer is aligned, bytes outside it keep the CPU's last write |
| `DcacheRange.InsideReceived` | doc/README.arm-caches:36-42 | the lines wholly inside an unaligned buffer are received correctly |
| `DcacheRange.WrappedLosesWrite` | arch/arm/cpu/armv7/cache_v7.c:221-226 | the wrap-around loses a write to the first line of memory |
| `Post.PassSurvivesResets` | post/post.c:298-358 | the boots of a pass, whatever resets there are, together do what one pass with resumed tests does, in at most one boot more than there are tests that may reset |
| `Post.FaithfulIff` | post/post.c:148-157 | that holds on all hardware if and only if the stored numbers contain each other's bits in order and no test that may reset runs in both groups |
| `Post.PassReport` | doc/README.POST:348-368 | over all boots each test is finished once, in table order, up to a failure that stops the pass; the failure flag is set if and only if a critical test failed, before or after a reset, or the word held a saved failure and there was a reset |
| `Post.ResumeBoot` | common/board_f.c:704-712 | a boot after a reset goes on with the interrupted test, told of the reset, and with the tests behind it in both groups |
| `Post.FreshBoot` | common/board_r.c:667-671 | a boot with nothing stored runs both groups in order |
| `Post.IdealShaped` | post/post.c:240-296 | the executions of a pass, their outcomes, and the failure flag, from any word |
| `Post.FinishedInOrder` | doc/README.POST:358-361 | tests are finished exactly once, in the order of the table |
| `Post.WatchdogPassesIffReset` | post/cpu/mpc8xx/watchdog.c:34-56 | the watchdog test is reported as passed if and only if it was reset |
| `Post.LostTest` | post/post.c:103-117 | with another number stored, the interrupted test is not what the next boots run |
| `Post.BadCrash` | post/post.c:148-157 | a number that does not nest: the reset that leaves another test's number |
| `Post.DualCrash` | post/post.c:314-331 | a test in both groups, reset in the second: the boots run more than the pass has |
| `PostLifetime.OneRebootTest` | post/post.c:148-157 | with one test that may reset, from power-on, a pass survives resets if and only if that test is not in both groups |
| `PostLifetime.OneAndTwo` | post/post.c:148-157 | with tests 1 and 2 it does not: a reset during 2 is taken for one during 3 |
| `PostLifetime.FaithfulForeverIff` | post/post.c:77-101 | after the power-on boot all normal passes survive resets on all hardware if and only if at most one test may reset, and not in both groups |
| `PostLifetime.SecondPassWrong` | post/post.c:159-166 | with two or more that nest, a quiet first pass leaves the number of the last one, and some reset in the second pass goes wrong |
| `PostFlag.FlagSays` | post/post.c:240-313 | for every table and all hardware, once a boot gets through the flag is set if and only if a critical test failed in the pass, or the word held a saved failure and there was a reset |
| `PostFlag.FlagRightIff` | post/post.c:304-313 | for every table, the flag of a pass says on all hardware whether a critical test failed in it, if and only if no failure was saved before, or no test may reset, or there is no second boot |
| `PostFlag.StaleFailure` | post/post.c:240-313 | a run: a critical failure in one normal pass, and from then on a reset sets the flag without a failure |
| `Post.BootModes` | post/post.c:77-101 | without resets the first boot is a power-on boot and cold, later ones are normal, and the hotkeys select the slow tests for one boot |
| `PostLayer.Layer.BootmodeInit` | post/post.c:77-101 | the word at the start of a boot |
| `PostLayer.Layer.RunSingle` | post/post.c:240-296 | one test: the word before and after it, the flags, a reset in the middle |
| `PostLayer.Layer.Run` | post/post.c:298-341 | the loop over the table, resumed or not, is the function of the proofs |
| `PostLayer.Layer.Boot` | common/board_f.c:704-712 | a boot is both groups after the word is set up |
| `PostLayer.Layer.BootThrough` | doc/README.POST:353-362 | booting until the tests get through gives the executions of one pass, and the failure flag from any word |
| `Autoboot.PasswdAbort` | common/autoboot.c:106-181 | the loop aborts if and only if a key occurs in what was received, with the first completed key; the retry is disabled if and only if that is the stop key |
| `Autoboot.Window.Push` | common/autoboot.c:151-160 | the window always holds the last characters received |
| `Autoboot.Window.Matches` | common/autoboot.c:162-177 | comparing the end of the window tells whether all input ends in the key |
| `Autoboot.OccursIff` | common/autoboot.c:150-178 | a key occurs in the input if and only if after some pass the input ends in it |
| `Autoboot.CounterSound` | doc/README.autoboot:122-127 | the documented match counter never recognises a key that is not there |
| `Autoboot.CompleteIffNoFallback` | doc/README.autoboot:122-127 | it recognises every occurrence, and agrees with the code, if and only if no proper part that starts the key again is followed by another character |
| `Autoboot.CounterLongest` | doc/README.autoboot:122-127 | for such keys the counter is the longest part of the key that the input ends in |
| `Autoboot.MissedInput` | doc/README.autoboot:122-127 | for any other key, input that contains it and is missed |
| `Autoboot.FreshFirstCharacter` | doc/README.autoboot:124-127 | the documented advice is sufficient |
| `Autoboot.AdviceNotNecessary` | doc/README.autoboot:124-127 | and not necessary |
| `Nand.RoundTripIff` | doc/README.nand:41-55 | reading back gives the data if and only if the old contents could take it, for every map of bad blocks |
| `Nand.PhysGood` | doc/README.nand:41-55 | no byte is put into a bad block |
| `Nand.PhysIncreasing` | drivers/mtd/nand/nand_util.c:635-678 | bytes keep their order |
| `Nand.BadBlocksKept` | doc/README.nand:33-36 | bad blocks keep their contents |
| `Nand.WrittenPiece` | drivers/mtd/nand/nand_util.c:635-678 | programming one more piece writes exactly its bytes and leaves all others |
| `Nand.WrittenUnique` | doc/README.nand:63-69 | the flash after a write is determined by data and old contents |
| `NandDriver.PlainAndTrimmed` | doc/README.nand:63-69 | the same data written to two devices with the same contents, plainly and trimmed: same result, same flash; the calls of the first program every byte, those of the second exactly the bytes not in the pages of 0xff at the end of a block |
| `Nand.ErasedTakes` | doc/README.nand:21-27 | flash erased as far as the data will go takes any data |
| `Nand.PlainEraseIff` | drivers/mtd/nand/nand_util.c:98-126 | erasing the length of the data, bad blocks counted, prepares for all data of that length if and only if none of those blocks is bad |
| `NandDriver.Flash.CheckSkipLen` | drivers/mtd/nand/nand_util.c:410-441 | whether the data fits, whether a bad block moves any of it, and how much flash it takes |
| `NandDriver.Flash.DropFfs` | drivers/mtd/nand/nand_util.c:444-464 | cuts whole pages of 0xff at the end, all of them, and nothing else |
| `NandDriver.Flash.NandVerify` | drivers/mtd/nand/nand_util.c:519-544 | page by page comparison is comparison of the whole |
| `NandDriver.Flash.WriteSkipBad` | drivers/mtd/nand/nand_util.c:572-681 | every byte in its place and no other changed, or refused without a change, or a difference was found and a known part was written; verified, it succeeds if and only if the old contents can take all bytes in pages that are programmed; the programming calls cover exactly the places of those bytes, in whole pages and one block each; the flash used |
| `NandDriver.Flash.NotProgrammed` | doc/README.nand:63-69 | a byte in the pages of 0xff at the end of a block is in no programming call |
| `NandDriver.Flash.KeptPiece` | drivers/mtd/nand/nand_util.c:444-464 | a byte is programmed in its block if and only if some byte from its page on, in the same block, is not 0xff |
| `NandDriver.Flash.ReadSkipBad` | drivers/mtd/nand/nand_util.c:706-783 | the bytes at their places, the flash used, and when it is refused |
| `NandDriver.Flash.WriteThenRead` | drivers/mtd/nand/nand_util.c:572-783 | a verified write and a read succeed if and only if the data fits, is within the limit and can be taken; then it is read |
| `NandDriver.Flash.EraseOpts` | drivers/mtd/nand/nand_util.c:52-185 | the good blocks of one stretch are erased and nothing else; how far, with and without spread, and when the device ends before |
| `NandDriver.Flash.EraseWriteRead` | doc/README.nand:21-55 | spread erase, verified write and read of the same range give the data back, for every map of bad blocks and all earlier contents |
| `NandDriver.ProgramTrimmed` | drivers/mtd/nand/nand_util.c:444-464 | leaving out bytes of 0xff changes nothing |
| `Fastboot.SessionConforms` | doc/README.android-fastboot-protocol:19-63 | every conversation follows the protocol: one response to each command, a data phase exactly after DATA, of the announced length |
| `Fastboot.DownloadSplit` | drivers/usb/gadget/f_fastboot.c:440-494 | however the data is split into packets, the phase ends with the packet that completes the length, and the image is the data up to it |
| `Fastboot.DownloadThenFlash` | doc/README.android-fastboot-protocol:112-123 | announce, send, flash: what is flashed is the announced number of bytes of what was sent |
| `Fastboot.DownloadAnnounced` | drivers/usb/gadget/f_fastboot.c:496-523 | a download is accepted if and only if it is not empty and fits |
| `Fastboot.DispatchIff` | drivers/usb/gadget/f_fastboot.c:669-683 | the command found is that of the packet itself, if and only if the packet is not a beginning that the rest of the buffer completes |
| `Fastboot.OwnAnswerIff` | drivers/usb/gadget/f_fastboot.c:584-702 | the answer is that to the packet in an empty buffer if and only if, besides, it is not "oem" in front of "unlock" or "format" left over |
| `Fastboot.WholeIff` | drivers/usb/gadget/f_fastboot.c:637-702 | whatever was sent before, a packet is answered by its own text if and only if it is no proper beginning of a command and not just "oem" |
| `Fastboot.SessionByText` | doc/README.android-fastboot-protocol:19-63 | a session in which all commands are like that has the same responses whatever was in the buffer |
| `Fastboot.StaleInTwo` | drivers/usb/gadget/f_fastboot.c:669-702 | from every state, each command is called by each of its proper beginnings after an unknown command with its other letters |
| `Fastboot.OneLetterReboots` | drivers/usb/gadget/f_fastboot.c:353-371 | from every state, "Xeboot" is refused and "r" is then answered as reboot |
| `Fastboot.LostIff` | drivers/usb/gadget/f_fastboot.c:669-702 | the device is lost if and only if a packet with only a beginning of "download:" is completed by what was left in the buffer |
| `Fastboot.LostInTwo` | drivers/usb/gadget/f_fastboot.c:669-702 | from every state two packets lead there |
| `Fastboot.DownloadLeavesNoTrap` | lib/string.c:411-423 | a refused download does not: its colon is overwritten |
| `Fastboot.WireProper` | drivers/usb/gadget/f_fastboot.c:131-141 | whatever the reason, a response is short and of one of the three kinds |
| `Fastboot.CommandAnswered` | drivers/usb/gadget/f_fastboot.c:669-702 | otherwise one proper response, and DATA if and only if the data phase follows |
| `Fastboot.DataStep` | drivers/usb/gadget/f_fastboot.c:440-494 | a packet of the data phase adds its bytes up to the announced length |
| `Fastboot.HexRoundTrip` | lib/strto.c:16-46 | a size in eight digits is read as that size |
| `Fastboot.Request` | drivers/usb/gadget/f_fastboot.c:422-437 | the length asked for is a whole number of packets, and the buffer size if that is less than what is due |
| `Fastboot.FoundDownload` | drivers/usb/gadget/f_fastboot.c:637-683 | the table gives the download command if and only if the text begins with it |
| `Fastboot.FlashAnswered` | drivers/usb/gadget/f_fastboot.c:557-582 | flash passes the image on and answers what the flash layer says |
| `FastbootDevice.Device.RxCommand` | drivers/usb/gadget/f_fastboot.c:669-702 | the handler on buffers in place, with its callbacks, is the function of the proofs |
| `FastbootDevice.Device.Strsep` | lib/string.c:411-423 | the argument behind the first colon, which is overwritten in the buffer |
| `FastbootDevice.Device.CbGetvar` | drivers/usb/gadget/f_fastboot.c:373-420 | the variable asked for |
| `FastbootDevice.Device.CbFlash` | drivers/usb/gadget/f_fastboot.c:557-582 | the image goes to the flash layer with the name of the partition |
| `FastbootDevice.Device.CbErase` | drivers/usb/gadget/f_fastboot.c:608-630 | the same for erasing |
| `FastbootDevice.Device.CbPlain` | drivers/usb/gadget/f_fastboot.c:539-605 | the callbacks without an argument, on the buffer as it is |
| `FastbootDevice.Device.RxData` | drivers/usb/gadget/f_fastboot.c:440-494 | the same for the data phase |
| `FastbootDevice.Device.CbDownload` | drivers/usb/gadget/f_fastboot.c:496-523 | the same for the download callback |
| `FastbootDevice.Device.Dispatch` | drivers/usb/gadget/f_fastboot.c:678-683 | the search loop finds the first entry that matches |
| `Gpt.PlacedSoundIff` | disk/part_efi.c:457-558 | an accepted layout is ordered, disjoint, in range and of the sizes asked for, if and only if no sum wraps around |
| `Gpt.FillPte` | disk/part_efi.c:457-558 | the loop accepts and places as that function says |
| `Gpt.SoundApart` | doc/README.gpt:50-110 | partitions of such a layout are apart from each other and inside the usable blocks |
| `Gpt.SoundMatches` | disk/part_efi.c:677-729 | an entry passes the check against its request unless it is the last one without a size |
| `Gpt.PlacedMatchesIff` | disk/part_efi.c:677-729 | for all accepted lists, wrapped sums included: the entries pass the check against the list if and only if the last size is not 0 and no end wraps around in 32 bits |
| `Gpt.WrapAccepted` | disk/part_efi.c:475-498 | a size that wraps puts the next partition on the tables; the check passes with 64 bits and fails with 32 |
| `Gpt.Disk.WriteTable` | disk/part_efi.c:406-455 | succeeds if and only if all blocks it needs can be written; then both copies are there, valid, with exchanged locations, apart from the partitions, and nothing else is written |
| `Gpt.Disk.IsGptValid` | disk/part_efi.c:877-909 | a header with its entries is accepted if and only if the disk holds them |
| `Gpt.Disk.Restore` | disk/part_efi.c:582-622 | succeeds if and only if the partitions can be placed and the tables written; a list that cannot be placed leaves the disk as it was; the layout is sound if and only if no sum wraps |
| `Gpt.Disk.Verify` | disk/part_efi.c:638-732 | passes if and only if the entries on the disk, unused ones included, match the request |
| `Gpt.RestoreAndVerify` | disk/part_efi.c:582-732 | what was written passes the check against the same list if and only if the last partition was given a size and no end wraps around in 32 bits |
| `MultiImage.FaithfulIff` | tools/mkimage.c:482-580 | mkimage writes every component whole and the reader finds it where it was put, with its length, if and only if all components have 1 to 2^31 - 1 bytes and the address of the last one fits an unsigned long |
| `MultiImage.MkImage` | tools/mkimage.c:352-408 | the file that the two loops write, and when they give up |
| `MultiImage.TooLarge` | tools/mkimage.c:547-565 | what becomes of components of 2^31 bytes and more |
| `MultiImage.WriteThenRead` | common/image.c:250-284 | the bytes of a component whose address fits come back |
| `MultiImage.MultiCount` | common/image.c:217-231 | the number of entries before the first zero |
| `MultiImage.MultiGetImg` | common/image.c:250-284 | address, in an unsigned long, and length of a component, and 0 for an index out of range |
| `MultiImage.ReaderAddressIff` | common/image.c:269-276 | for any table, a component is looked for where the format has it if and only if no size before it is above 2^32 - 4 and that address fits an unsigned long |
| `MultiImage.RoundingWraps` | common/image.c:269-276 | in every build, a table whose second component is looked for on top of the first |
| `MultiImage.SumWraps` | common/image.c:269-276 | with 32 bits, a table of moderate sizes whose third component is looked for on top of the first |
| `MultiImage.ThirdOutOfReach` | common/image.c:250-284 | with 32 bits, three components that mkimage writes and the reader does not find |
| `MultiImage.PlaceApart` | README_ORIG:6059-6064 | components do not overlap, and are aligned to four bytes if no size is negative |
| `MultiImage.BodyAt` | tools/mkimage.c:482-580 | what is written of each component is in the file at its place |
| `MultiImage.ListedCount` | common/image.c:217-231 | the count is the number of components if and only if no stored size is zero |
| `BootpIds.CachedIsLast` | net/bootp.c:91-102 | with longs of four bytes the cache is the last IDs sent |
| `BootpIds.HoldsLastIff` | README_ORIG:2089-2105 | none of the last IDs is forgotten if and only if a long is no longer than an entry |
| `BootpIds.Cache.AddId` | net/bootp.c:91-102 | moving and replacing in place is the function of the proofs |
| `BootpIds.Cache.MatchId` | net/bootp.c:104-113 | finds exactly the IDs in the cache |
| `PreConsole.Buffer.Putc` | common/console.c:433-438 | the ring keeps the last characters at their places |
| `PreConsole.Buffer.Puts` | common/console.c:440-444 | the same for a string |
| `PreConsole.Buffer.Print` | README_ORIG:876-885 | the flush gives the last characters written, in order, as many as there is room for |
| `SdramBanks.SortOrdered` | README_ORIG:6448-6452 | the banks come out largest first, equal ones by number |
| `SdramBanks.Tiles` | README_ORIG:6450-6452 | every address below the total is in exactly one bank |
| `SdramBanks.MappingAligned` | README_ORIG:6448-6452 | with sizes that are powers of two each bank starts at a multiple of its size |
| `Fuses.SenseGivesAll` | doc/README.fuse:30-37 | over any operations sensing gives all fuses ever programmed |
| `Fuses.ReadGivesLast` | doc/README.fuse:26-62 | reading gives the last override, or the fuses at the last reload, under either rule |
| `Fuses.MaskingKeepsFuses` | doc/README.fuse:45-49 | clearing the bits already programmed from every value never matters to the fuses |
| `Fuses.MaskingIff` | doc/README.fuse:45-49 | it changes nothing at any moment if and only if no programming blew nothing new and only reloaded an overridden register |
| `Fuses.FuseBox.Read` | doc/README.fuse:26-28 | gives the last override or load of a word |
| `Fuses.FuseBox.Sense` | doc/README.fuse:30-37 | gives the fuses, past the shadow registers |
| `Fuses.FuseBox.SetOverride` | drivers/misc/mxc_ocotp.c:323-338 | changes one shadow register and no fuse |
| `Fuses.FuseBox.OcotpProg` | drivers/misc/mxc_ocotp.c:276-321 | blows a word and leaves the shadow registers |
| `Fuses.FuseBox.IimProg` | drivers/misc/fsl_iim.c:237-259 | bits are blown one by one from the lowest, with the registers reloaded; a failure leaves exactly the bits below it |
| `Fuses.OneByOneIsAtOnce` | drivers/misc/fsl_iim.c:248-255 | after any operations, that leaves every word as programming the bits at once does |

## Left out

- EraseOpts: does not model the limit, the scrub and JFFS2 options, failing erase operations, nor that asking for the block exactly at the end of the device reads outside the bad block table (the model ends with -1 there).
- PasswdAbort: asks for a key if there is input; without any key the original stores characters in a window of no length. The bound of 32 characters on a key is in the model.
- MultiCount: asks for a table that ends inside the payload; the original reads on.
- MultiGetImg: the same.
- AddId: asks for a cache of at least the size of a long; with one entry and longs of eight bytes the length given to memmove wraps around.
- HoldsLastIff: the same.
- FlushRange: asks for an end outside the last line of the address space; for the others see FlushEnds.
- WriteTable: every block of the disk can be read; writing may fail.
- FillPte: lists of more than 128 partitions, for which the original has no room.
- IsGptValid: an entry array is read back as one value or not at all; mixed blocks that happen to have the right checksum do not occur.
- Device.RxCommand: ends with no response where the original reads from address 0.
- Disk.Restore: disks of less than 34 blocks, on which the block numbers of the original are negative.
- RestoreAndVerify: says nothing of disks so small that the entries of the two copies overlap.
- Select: the wrap-around of the millisecond timer.
- Buffer.Putc: the wrap-around of the index after 2^32 characters.
- IimProg: takes the words of all banks as one list; protection bits and the timing of the hardware are left out.
- POST: environment lists that change the flags of tests, single tests run from the prompt, the progress log, and hotkeys beyond a yes or no at each boot.
- Caches: set/way operations, several levels, the outer cache, instruction caches.
- NAND: out-of-band data, error correction, failing reads and writes, and in the layer below the rule that a last page lacking exactly one byte is programmed whole.
- Fastboot: USB errors, the reset after `reboot` and the boot and continue actions after their response, and the flash layer.
- GPT: protective MBR contents, GUIDs, names in UTF-16, attributes.
- Autoboot: the variant that compares a hash, countdown and timing.
- The access flags of environment variables: single checks on each write.
- The redundant environment, PXE and sysboot menus, flattened images, hush and the device drivers: they would add members of the same kinds or depend on code outside the repository.
