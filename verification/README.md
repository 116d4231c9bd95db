# Verification of the Intel Gigabit NetAdapterCx driver's protocols

The driver shares its hardware with other drivers, with firmware, with a physical function, with DPCs on
other processors, and with the device itself, which reads and writes descriptor rings while the driver
does. This project models the parts of the driver where that matters and proves what they promise.

Each part is set against a small device model that says what the code relies on. Where several parties
take steps, the model is a state machine over single register accesses (or interlocked operations): a
label names a party and its step, a disabled label changes nothing, and the theorems are about `Exec`
over any sequence of labels. Beside the machine stands a class whose methods are the driver's own loops;
every access in them is one step of the machine, with any number of steps of the other parties before it.
Single-owner parts are classes over arrays and fields, their methods proved against functions on values.
Registers whose bits are used one by one are sets of bit numbers; integer widths are written out. A clause
`P(..) == true` states the predicate as one fact, which is handed on whole.

- `Semaphore`, `SemaphoreSafety`, `SemaphoreForced`, `SemaphoreDriver`: the two-level SW/FW lock around the
  read-modify-write of SW_FW_SYNC, for any number of agents and the firmware, with the one-shot forced clear
  of the i210 and the exact condition under which that clear is harmless. Device: reading SWSM returns SMBI
  and sets it; SWESMBI latches unless the firmware holds it.
- `SpiBits`, `SpiEeprom`, `SpiWords`, `NvmSpi`: the bit-banged SPI access as a refinement of reading and
  updating an array of words. Device: a serial EEPROM clocked bit by bit through EECD, with write enable,
  write cycles that end at any time, and page writes that wrap. The code takes the ninth address bit from
  the start of the range alone, so on small chips a range must stay on one side of word 128;
  `WriteIsExactIff` and `ReadBackIff` show that this is exactly the condition, and `WriteThenRead` is the
  round trip through the chip.
- `Checksum`, `NvmChecksum`: checksum update and validation of the 82580 and i350 over four regions, with
  reads and writes that may fail.
- `NvmI210`: the i210's shadow RAM, whose checksum functions hold the EEPROM lock and swap the read
  operation. Multi-word bursts restart at the same offset, and the write function reports success whether
  the device finished or not; the contracts say exactly what follows. Device: EERD and SRWR are decoded
  from the packed registers, whose address field has fourteen bits.
- `Pba`: the printed board assembly block in an EEPROM image, written and read back.
- `Mailbox`, `MailboxSafety`, `MailboxDriver`: the VF/PF mailbox. Device: VFU and PFU latch only while the
  other is clear, and the status bits of V2PMAILBOX clear when read.
- `Interrupt`, `InterruptDriver`: the hand-over of interrupt causes from ISR to DPC through two words.
- `RingIndex`, `TxDescriptors`, `TxRing`, `TxCourse`, `TxQueue`, `TxRuns`: the transmit descriptor ring. The
  number of available descriptors ignores what is outstanding, so a pass keeps the ring consistent only if
  what it posts fits beside it (`RoomIff` shows that this is exact, `RoomCanFail` and `Overwrite` that it can
  fail); and it counts only up to the end of the ring, so a packet that does not fit there is never posted.
  `CanGetStuckIff` says for which rings and offloads that happens to packets of one fragment, the most the
  driver accepts (adapter.cpp:143, adapter.h:16).
- `RxRing`, `RxQueue`: the receive descriptor ring, with the device writing back at any moment. Device: it
  fills from its head up to but not including the tail.
- `PhyPage`, `PhyPageSafety`, `PhyPageDriver`: paged PHY access over MDIC under the SW/FW lock, the
  semaphore machine being a part of the state. Device: one command at a time, finished at any later time,
  with or without effect; a result without error had its effect.
- `Multicast`: the multicast hash table, and the hashes a VF sends its PF. The two hash functions find their
  shift by different loops; `VfAgreesIff` says for which tables they agree.
- `FlowControl`: flow-control advertisement and resolution at both ends of a link, against the pause
  resolution table of IEEE 802.3, Annex 28B.3. With the reset of the PHY blocked link set-up succeeds without
  touching the advertisement, so agreement then needs one that stems from the mode asked for.
- `Numbers`: words, storing into an image, and division facts that several parts use.

Where the repository seems to intend one thing and its code does another, the model follows the code:
`e1000_write_nvm_srwr` has a branch for a write that timed out which is never taken, and
`e1000_update_mc_addr_list_vf` sets an overflow bit that the next statement overwrites. The comment above the
hash computation (e1000_mac.c:547) gives 0x163 for its example with filter type 2, where the code gives 0x58D.

The main contracts name bits, addresses, limits and counts as numbers, in predicates that no method uses; methods
use the names of the source.

## Model

| member | source | states |
|---|---|---|
| SemaphoreSafety.MutualExclusion | e1000_82575.c:1005-1071 | For any number of software agents and the firmware, in every interleaving of single register accesses: no resource is held twice, no software bit is set together with its firmware bit, and SW_FW_SYNC shows exactly what is held |
| SemaphoreSafety.CallOutcome | e1000_82575.c:1005-1071 | A call that returned is outside SMBI and SWESMBI; a successful acquire holds exactly its mask more, a failed one nothing more, a release exactly its mask less |
| SemaphoreSafety.SemaphoreGivenBack | e1000_mac.c:1759-1770 | Once all calls have returned, on success and failure paths alike, both SMBI and SWESMBI are clear |
| SemaphoreSafety.StepKeeps | e1000_mac.c:1708-1770 | Every single access keeps the invariant of lock, register and remembered values, unless it is a forced clear that hits a live holder |
| SemaphoreSafety.RunKeeps | e1000_82575.c:1005-1071 | The invariant holds after every run without such a forced clear |
| SemaphoreSafety.GenericRunsAreClean | e1000_mac.c:1708-1750 | Without the i210 variant no run contains a forced clear, so the results hold for all of them |
| SemaphoreSafety.ForcedClearIsSafeIff | e1000_i210.c:162-223 | The write of the forced clear takes an invariant state to an invariant one if and only if no other agent is inside the lock at that moment |
| SemaphoreSafety.ForcedClearAtMostOnce | e1000_i210.c:180-199 | An agent forces the semaphore at most once in any run, and never when its one-shot flag is clear |
| SemaphoreSafety.ForcedClearCanBreakExclusion | e1000_i210.c:183-199 | For every poll limit: a run of two agents from the initial state in which the forced clear makes both hold the same resource |
| SemaphoreForced.ForcedClearKeepsExclusionIff | e1000_i210.c:162-223 | From any invariant state in which an agent is about to force the clear: every continuation, with no further such clear on a live holder, keeps two agents from ever holding the same resource, if and only if no other agent is inside the lock at that moment |
| SemaphoreForced.InsideOpenLock | e1000_82575.c:1014-1042 | An agent inside the lock while SWSM is clear, wherever it stands in its call, and any other agent that is outside: some continuation makes both hold one resource, by a stale write-back of SW_FW_SYNC |
| SemaphoreForced.Complete | e1000_82575.c:1014-1048 | Running alone against an open lock, a call comes to its end from any of its polls, in whatever round, and leaves the lock open |
| SemaphoreForced.Leave | e1000_mac.c:1725-1770 | From every point inside the lock an agent running alone leaves it, with SWSM clear and no unrelated bit set in SW_FW_SYNC |
| SemaphoreSafety.AccessMakesProgress | e1000_82575.c:1014-1040 | Whatever the device answers, every access of an acquire call lowers the number of accesses it still needs |
| SemaphoreSafety.AcquireReturns | e1000_82575.c:1005-1048 | An acquire call returns once it has been given that many accesses, whatever the others do |
| SemaphoreSafety.AcquireIsBounded | e1000_i210.c:88-131 | Both poll loops and the retry loop stop: 200 * (5 * limit + 7) own accesses suffice for any acquire call |
| SemaphoreDriver.HoldsAlone | e1000_82575.c:1027-1042 | What an agent holds is set in the software half, clear in the firmware half, and held by nobody else |
| SemaphoreDriver.Port.PutHwSemaphore | e1000_mac.c:1759-1770 | The two accesses of put_hw_semaphore leave SMBI and SWESMBI clear, though the read sets SMBI again, and end the part of the call they belong to |
| SemaphoreDriver.Port.GetSw | e1000_i210.c:162-202 | The SMBI part, by the values of SWSM it read: it wins SMBI with the first poll of at most `limit` that does not show it, or with one of as many more after the one-shot forced clear, and fails only when all of these polls showed SMBI |
| SemaphoreDriver.Port.GetHwSemaphore | e1000_mac.c:1708-1750 | By the values of SWSM it read: success means SMBI was won and some read-back of at most `limit` showed SWESMBI, and the agent is about to access SW_FW_SYNC under both bits; failure means SMBI was not won, or no read-back of `limit` showed SWESMBI, and nothing is kept |
| SemaphoreDriver.Port.GetFw | e1000_mac.c:1732-1747 | The SWESMBI part, by the values of SWSM it read: it ends with the first read-back of at most `limit` that shows SWESMBI, and fails, giving the semaphore back, only when none did |
| SemaphoreDriver.Port.AcquireSwfwSync | e1000_82575.c:1005-1048 | With any steps of others between its accesses: success adds exactly the mask, held by nobody else if no forced clear hit a live holder, the last of at most 200 values of SW_FW_SYNC it read being the first with the mask free; failure adds nothing, and means 200 values with the mask busy, or a get_hw_semaphore that failed after fewer |
| SemaphoreDriver.Port.Round | e1000_82575.c:1014-1031 | One round: the mask is found free or busy in the one value of SW_FW_SYNC read under the lock; busy leads to the next round, or to failure after the last |
| SemaphoreDriver.Port.ReleaseSwfwSync | e1000_82575.c:1057-1071 | When it gets the semaphore it takes exactly the mask off what the agent holds; every attempt before that was a get_hw_semaphore that read what makes it fail |
| SpiBits.ValueOfMsb | e1000_nvm.c:154-190 | Sending the low n bits most significant first and reading them back as a number gives the value modulo 2^n |
| SpiWords.AddressOf | e1000_nvm.c:463-472 | The chip decodes the instruction the driver sends as its opcode and the byte address of the word really reached, the A8 bit coming from the start offset alone |
| SpiWords.NextWordOut | e1000_nvm.c:479-482 | After a READ instruction and i words of output the next 16 output bits are word offset + i, low byte first |
| SpiWords.SentBytes | e1000_nvm.c:646-651 | The chip takes from a WRITE instruction exactly the bytes of the words shifted out, in order |
| SpiWords.PageTest | e1000_nvm.c:655-658 | The driver's page test fires after n words exactly if they filled the page to its end |
| SpiWords.PageStored | e1000_nvm.c:643-660 | A page write of consecutive words of a call, all in one page, stores exactly these words |
| SpiWords.WriteIsProgram | e1000_nvm.c:635-660 | Raising CS after a WRITE instruction programs the page its address lies in, and wraps only if the data runs over the page |
| SpiWords.WriteExecuted | e1000_nvm.c:622-668 | Raising CS after a page of words makes the memory agree with the call up to those words, without a page wrap |
| SpiWords.StoredOnOneSide | e1000_nvm.c:610-676 | A write whose range stays on one side of word 128 changes exactly words [offset, offset + n) to the data |
| SpiWords.CrossingMissesUpperHalf | e1000_nvm.c:632-636 | With 8 address bits a write that starts below word 128 never touches a word from 128 on |
| SpiWords.WriteIsExactIff | e1000_nvm.c:610-676 | The write has the intended effect on every image and for all data if and only if the range stays on one side of word 128, or the chip has 16 address bits |
| SpiWords.ReadBackIff | e1000_nvm.c:610-676 | About the image a write stores: its part on the range is the data, for every image and all data, under exactly the same condition |
| SpiEeprom.WordsStored | e1000_nvm.c:646-651 | Words stored as a block are, byte by byte, their low and high bytes at twice their number, and no other byte differs |
| NvmSpi.Nvm.ShiftOut | e1000_nvm.c:154-190 | The chip has clocked in exactly the low `count` bits of the data, most significant first, with the clock left low |
| NvmSpi.Nvm.ShiftIn | e1000_nvm.c:202-228 | The result is the number the next `count` output bits of an undisturbed chip stand for |
| NvmSpi.Nvm.Standby | e1000_nvm.c:302-333 | The pulse on CS, under the lock like every write to EECD, executes the instruction sent so far and starts a new one |
| NvmSpi.Nvm.Stop | e1000_nvm.c:343-361 | CS goes up with the clock low, executing the instruction sent so far |
| NvmSpi.Nvm.ReadyNvm | e1000_nvm.c:388-436 | Success means the chip has no write cycle running; the status reads change nothing; failure means the chip was busy at the start of each of 5000 polls |
| NvmSpi.Nvm.ReadNvmSpi | e1000_nvm.c:447-496 | Success leaves in the buffer the words of the range, each from its two bytes, low byte first; the memory never changes, the lock is given back on every path, a range that is empty or reaches out of the chip touches nothing; any other call fails only if the lock was refused or 5000 status polls met a busy chip |
| NvmSpi.Nvm.PollStatus | e1000_nvm.c:410-426 | One status poll succeeds on a chip that is ready, and never on one that is not |
| NvmSpi.Nvm.ReadWords | e1000_nvm.c:479-482 | The loop leaves the words of the range in the buffer, byte order restored |
| NvmSpi.Nvm.SendPage | e1000_nvm.c:643-660 | The inner loop stores the words up to the page end, or leaves a rest that fits in the page |
| NvmSpi.Nvm.WriteNvmSpi | e1000_nvm.c:610-676 | Success stores every word of the call where it reaches, and with 16 address bits or on one side of word 128 that is its own two bytes, low byte first, no other byte changing; failure stores a prefix, and comes only from a bad range, a refused lock or 5000 polls of a busy chip; no page write runs over its page; the lock is given back |
| NvmSpi.WriteThenRead | e1000_nvm.c:447-676 | A write and then a read that both succeed return the part of the stored image the range covers, and hence the data themselves if the range stays on one side of word 128; with a responding chip both succeed for every range in bounds |
| Checksum.FixIsUnique | e1000_82575.c:2470-2472 | Of all 16-bit words exactly the one the update computes makes a region's sum 0xBABA |
| Checksum.OneWordIsDetected | e1000_82575.c:2425-2439 | Changing one word of a valid region to any other value makes validation fail |
| Checksum.SumUpdate | e1000_82575.c:2425-2432 | Changing one word shifts the 16-bit sum by the difference |
| Checksum.SumIsTotal | e1000_82575.c:2425-2432 | What the loops accumulate in sixteen bits is the sum of the words modulo 2^16 |
| Checksum.RegionsDisjoint | e1000_defines.h:1106 | The regions of different ports share no word |
| Checksum.FixSparesOthers | e1000_82575.c:2552-2557 | Rewriting one region's checksum changes the validity of no other region |
| Checksum.FixedUpToValid | e1000_82575.c:2600-2617 | Rewriting the checksums one after the other makes all these ports valid and changes no other word |
| Checksum.FixedUpToIdempotent | e1000_82575.c:2600-2617 | An image whose ports are valid is left exactly as it is |
| Checksum.CompatibleBitBreaksRegion0 | e1000_82575.c:2542-2550 | Setting the compatibility bit where it was clear invalidates a valid region 0 and no other: an update that stops there leaves a bad image |
| NvmChecksum.Nvm.ValidateRegion | e1000_82575.c:2416-2445 | Success and a bad checksum are reported exactly when the 64 words add up to 0xBABA in sixteen bits or not, unless a read fails |
| NvmChecksum.Nvm.UpdateRegion | e1000_82575.c:2453-2478 | Success means the checksum word alone was rewritten to the valid one; on failure it was rewritten or nothing was |
| NvmChecksum.Nvm.UpdatePorts | e1000_82575.c:2605-2612 | Stopped by an error the loop has rewritten the checksums of the first ports, each completely, and nothing else |
| NvmChecksum.Nvm.ValidateI350 | e1000_82575.c:2572-2590 | With accesses that succeed: success if and only if the regions at 0, 0x80, 0xC0 and 0x100 are valid |
| NvmChecksum.Nvm.UpdateI350 | e1000_82575.c:2600-2617 | Success makes the regions at 0, 0x80, 0xC0 and 0x100 valid; only words 0x3F, 0xBF, 0xFF and 0x13F ever change; a valid image stays as it is |
| NvmChecksum.Nvm.Validate82580 | e1000_82575.c:2487-2518 | With accesses that succeed: success if and only if region 0 is valid and, with bit 15 of word 3, all four are |
| NvmChecksum.Nvm.Update82580 | e1000_82575.c:2528-2562 | Success sets bit 15 of word 3 and makes all four regions valid; only that bit and the checksum words ever change |
| NvmChecksum.UpdateThenValidate82580 | e1000_82575.c:2487-2562 | On any device, an update that succeeds is never followed by a bad checksum: validate succeeds unless one of its reads fails, and succeeds on a responding device |
| NvmChecksum.UpdateThenValidateI350 | e1000_82575.c:2572-2617 | The same for the i350 form |
| NvmI210.SrwrIsExactIff | e1000_i210.c:343-346 | The device takes from the fields of SRWR exactly the address and data meant, for all data, if and only if the address has at most fourteen bits; a longer one, up to the fifteen bits of the largest NVM, runs into the data |
| NvmI210.SrwrIsPacked | e1000_i210.c:343-345 | The register value built by shifts and OR on 32-bit words is the sum of fields that the device decodes, with bit 14 of the address joined into the data |
| NvmI210.PackedIsExactIff | e1000_i210.c:343-345 | The same on the 32-bit register as packed by shifts and OR: both fields come out as meant for all data if and only if the address has at most fourteen bits |
| NvmI210.CounterReachesIff | e1000_i210.c:246 | The 16-bit counter of the burst loops, advancing by 512, ever reaches the number of words if and only if that is at most 0xFE00 |
| NvmI210.BurstReadIsExactIff | e1000_i210.c:246-261 | As the offset is not advanced, a multi-word read returns the range for every image if and only if it takes one burst of at most 512 words |
| NvmI210.BurstWriteMisses | e1000_i210.c:291-306 | Words 512 or more behind the offset are never written |
| NvmI210.BurstWriteIsExactIff | e1000_i210.c:291-306 | A multi-word write stores the range for every image and all data if and only if it takes one burst |
| NvmI210.I210Nvm.Acquire | e1000_i210.c:55-63 | The EEPROM lock is only requested while not held, and taken exactly on success |
| NvmI210.I210Nvm.ReadEerd | e1000_nvm.c:562-596 | Success means the range is in bounds and every word took fewer than 100000 polls and, below the address 0x4000, returns exactly its words; in bounds it fails exactly at the first word that took more |
| NvmI210.I210Nvm.ReadSrrd | e1000_i210.c:235-264 | Success returns the words a burst read returns, for addresses below 0x4000; the lock is given back as often as taken; every call of at most 0xFE00 words returns, and a call of more never with success |
| NvmI210.I210Nvm.WriteWord | e1000_i210.c:342-356 | If the device is done within 100000 polls, the word it decodes from SRWR is stored at the address it decodes, and otherwise nothing is |
| NvmI210.I210Nvm.WriteSrwr | e1000_i210.c:321-366 | Only under the lock; the result is success exactly for a range in bounds, whether the device finished or not; below the address 0x4000 exactly the words finished within the polls are stored |
| NvmI210.I210Nvm.WriteSrwrI210 | e1000_i210.c:280-309 | Below the address 0x4000: with a responding device the burst write is stored, and nothing outside the first burst's range ever changes; every call of at most 0xFE00 words returns, and a call of more never with success |
| NvmI210.I210Nvm.Read | e1000_i210.c:612-617 | The swappable read operation: the locking form is never entered with the lock held |
| NvmI210.I210Nvm.ValidateGeneric | e1000_nvm.c:1166-1189 | If all reads succeed: success if and only if the 64 words are valid |
| NvmI210.I210Nvm.ValidateChecksum | e1000_i210.c:597-625 | Every exit restores the read operation and gives the lock back as often as taken; success if and only if valid, when all reads succeed |
| NvmI210.I210Nvm.UpdateChecksum | e1000_i210.c:636-688 | Every exit gives the lock back; after success flash equals the shadow RAM, and it is valid if and only if the checksum write finished in time or the words were valid before |
| NvmI210.I210Nvm.PollFlashDone | e1000_i210.c:746-763 | Success if and only if no commit is running or it ends within 20000 polls, having copied the shadow RAM |
| NvmI210.I210Nvm.UpdateFlash | e1000_i210.c:715-739 | Success means flash holds the shadow RAM; a commit is only started with none running |
| NvmI210.UpdateThenValidate | e1000_i210.c:597-688 | With a responding device update and then validate succeed, flash and shadow RAM being the old words with a valid checksum |
| Pba.RoundTripIff | e1000_nvm.c:954-1069 | Reading back a PBA that was written gives the same words and block if and only if the block's length is neither 0 nor 0xFFFF and within the reader's limit, and the block does not change words 8 and 9 |
| Pba.WrittenAt | e1000_nvm.c:1023-1069 | A write changes words 8 and 9 and the words of the block, and no other word of the image |
| Pba.BlockStored | e1000_nvm.c:1054-1062 | After a write the block stands where word 1 points, with its length first |
| Pba.SizeOfWritten | e1000_nvm.c:1082-1127 | On an image that was written, with the block keeping words 8 and 9: success with length 0 for the legacy format; otherwise success with the block's own first word exactly if that is neither 0 nor 0xFFFF |
| Pba.ReadPbaRaw | e1000_nvm.c:954-1009 | Succeeds exactly on images that hold a PBA: words 8 and 9 inside, and if word 8 is 0xFAFA a block inside whose first word, its length, is neither 0 nor 0xFFFF and within the limit; copies the words and the block in place |
| Pba.WritePbaRaw | e1000_nvm.c:1023-1069 | Success writes the PBA and nothing else; if the block does not fit, the two words have been changed already |
| Pba.WriteThenRead | e1000_nvm.c:954-1069 | Writing with one call and reading with another returns the same words and block, under the condition of RoundTripIff |
| MailboxSafety.BufferHasOneOwner | e1000_mbx.c:430-451 | In every interleaving of VF and PF accesses VFU and PFU are never both held, and a side outside a call holds neither |
| MailboxSafety.OnlyOwnerWrites | e1000_mbx.c:461-491 | Only an access of the side that owns the buffer changes it |
| MailboxSafety.ReadIsOneMessage | e1000_mbx.c:502-527 | A read about to acknowledge holds the front of what one completed write left, never a mix; after a notification that write is the other side's |
| MailboxSafety.NoticesAreCurrent | e1000_mbx.c:364-378 | While a message notification is pending the last completed write is the other side's |
| MailboxSafety.EventsAreNotLost | e1000_mbx.c:326-355 | Pending events (register joined with the shadow) change by exactly what each step signals and what it is meant to clear: PFSTS, PFACK or RSTD for the check of just that event, PFSTS and PFACK for the flushes; a check of the VF succeeds exactly if its event is pending, or RSTI is up for a reset check; and the same account for the two bits of the PF |
| MailboxSafety.LockTestIsHardware | e1000_mbx.c:430-451 | The lock test succeeds exactly if the hardware latched VFU; the shadow never holds it |
| MailboxSafety.AckMeansReceived | e1000_mbx.c:216-237 | If the PF reads only when it knows of a message, an acknowledgement the VF sees means the PF received the VF's latest message |
| MailboxSafety.StepKeeps | e1000_mbx.c:430-527 | Every access of either side keeps the invariant of owner bits, buffer content and notifications |
| MailboxSafety.RunKeeps | e1000_mbx.c:648-751 | It holds after every run |
| MailboxDriver.VfMailbox.ReadV2pMailbox | e1000_mbx.c:326-334 | The answer shows VFU and PFU exactly as the hardware has them, and of PFSTS, PFACK and RSTD exactly those pending; the read clears the register and yet loses no event |
| MailboxDriver.VfMailbox.Check | e1000_mbx.c:344-355 | One access, in which a message check finds exactly if PFSTS is pending, an ack check exactly if PFACK is, a reset check exactly if RSTD is or RSTI is up, and takes that event alone away; a message pending at the call is found; a found ack means the PF received the latest message |
| MailboxDriver.VfMailbox.ObtainLock | e1000_mbx.c:430-451 | Fails if and only if the PF owned the buffer at each of eleven attempts; success means VFU is set and PFU clear, failure that VFU is clear |
| MailboxDriver.VfMailbox.WriteMbx | e1000_mbx.c:461-491 | Succeeds exactly if the lock was had; then the message is at the front of the buffer as the last completed write, the PF is requested and the lock dropped |
| MailboxDriver.VfMailbox.ReadMbx | e1000_mbx.c:502-527 | Succeeds exactly if the lock was had; then it returns the front of the last completed write, the PF's if it was noticed, acknowledges and drops the lock |
| MailboxDriver.VfMailbox.PollFor | e1000_mbx.c:185-237 | Fails by timeout if and only if all polls fail, and then clears the timeout; an event pending at the call is found by the first poll; with the timeout clear it touches nothing |
| MailboxDriver.VfMailbox.PollLoop | e1000_mbx.c:196-205 | Polls until the first success, at most `timeout` times |
| MailboxDriver.VfMailbox.ReadPostedMbx | e1000_mbx.c:250-269 | Succeeds exactly if a poll found a message and the lock was had, and returns a message of the PF; after a timeout it fails without a register access |
| MailboxDriver.VfMailbox.WritePostedMbx | e1000_mbx.c:279-298 | Succeeds exactly if the lock was had and a poll found the acknowledgement; then the PF received a front of the very buffer this message was written to; after a timeout it fails without a register access |
| MailboxDriver.VfMailbox.PostedAfterTimeout | e1000_mbx.c:250-298 | Any sequence of posted calls after a timeout fails, call by call, without touching the mailbox |
| MailboxDriver.VfMailbox.ResetHwVf | e1000_vf.c:258-299 | The reset is requested in CTRL bit 26; after at most 200 checks that saw it asserted the mailbox is re-armed with 2000 polls, after 201 the call fails and nothing more is touched; then it succeeds exactly if a message of the PF was found and read whose first word is 0x80000001, and takes the six address bytes, lowest first, out of it; otherwise the address stays as it was |
| MailboxDriver.VfMailbox.AskAddress | e1000_vf.c:278-299 | Behind the reset: whatever became of the request, a message of the PF is polled for and read with what the timeout then is; success exactly if that worked and its first word is 0x80000001 |
| Interrupt.NothingStranded | interrupt.cpp:101-219 | In every interleaving: with the ISR idle and no DPC queued or running, ICR and EICR are 0 and every cause ever accepted was acted on |
| Interrupt.ConsumedOnce | interrupt.cpp:181-219 | Over any run an accepted cause is never lost, moves only from ISR to word to DPC to consumed, and stays with the DPC call that took it |
| Interrupt.NotificationsAnswerCauses | interrupt.cpp:181-219 | In every run, however ISR and DPC calls overlap, the notifications made (RX queues, TX, link) number no more than the causes consumed: no bit is acted on twice |
| Interrupt.NotificationConsumes | interrupt.cpp:192-218 | Each notification of a DPC call consumes at least one cause of its own, which that call took and no call had acted on before |
| Interrupt.InterruptIsAnswered | interrupt.cpp:101-219 | From any point of any run: the causes accepted for an interrupt are just those its registers show (bits 0 to 2 of ICR, the queue of an RX message, or bits 0 to 3 of EICR and with bit 31 those of ICR, unless all bits are set), and once the object is at rest again each has been acted on by a DPC call |
| Interrupt.StepKeeps | interrupt.cpp:101-219 | Each interlocked operation keeps the invariant: no word is left without somebody on the way to fetch it, every cause is where its place says, and every set bit of a word or of a call's copy has an accepted cause at exactly that place |
| InterruptDriver.InterruptObject.EvtInterruptIsr | interrupt.cpp:101-177 | With DPCs running in between, and by the register values read: the miscellaneous message brings the TX and link bits of ICR, another message its queue, a shared interrupt the queue bits of EICR and, with bit 31, those of ICR; just these causes are accepted and a DPC is queued; with no bit or all bits set nothing happens |
| InterruptDriver.InterruptObject.EvtInterruptDpc | interrupt.cpp:181-219 | With the ISR and other DPCs running in between: each cause this call took was acted on, RX queues in order and once each, bits 0 and 1 of ICR by the TX queue and bit 2 by the link; and each notification it made answers a cause that this call consumed |
| InterruptDriver.InterruptObject.NotifyRxQueues | interrupt.cpp:192-201 | The loop notifies, in order and once each, exactly the queues for which this call consumed a cause |
| InterruptDriver.InterruptObject.HandleIcr | interrupt.cpp:203-218 | TX completion and the link are notified exactly if this call consumed a cause for them |
| TxDescriptors.OnlyLastReports | txqueue.cpp:284-323 | Of a packet's descriptors only the last carries RS and EOP, and none reads as done when written |
| TxDescriptors.PaylenIsExactIff | txqueue.cpp:269-305 | PAYLEN decodes to the sum of the data descriptors' lengths if and only if that sum is below 2^18 |
| TxDescriptors.DataDescIs | txqueue.cpp:285-323 | Field by field: a data descriptor points at address plus offset modulo 2^64, carries the 16-bit length, bits 20, 21, 25 and 29, VLE and TSE as configured, EOP and RS on the last only, IXSM and TXSM by the offloads, and the packet length |
| TxDescriptors.ContextDescIs | txqueue.cpp:160-226 | Field by field: VLAN tag, header lengths, MSS and protocol bits of the context descriptor |
| TxRing.PostKeeps | txqueue.cpp:284-328 | Posting a packet into free slots keeps every outstanding packet's polled slot, EOP, RS and done state |
| TxRing.PolledSlotsDiffer | txqueue.cpp:242-251 | Two outstanding packets are never polled at the same slot |
| TxRing.ReportKeeps | txqueue.cpp:242-251 | A write-back of one packet's slot makes that packet alone read as complete |
| TxRing.PopKeeps | txqueue.cpp:342-367 | Taking the oldest packet off keeps the rest consistent |
| TxRing.CompletePrefix | txqueue.cpp:350-364 | The packets a completion pass takes: all before the first unreported one |
| TxRing.PassGrows | txqueue.cpp:269-332 | Posting one more packet continues the stretch of consecutive slots of the pass |
| TxRing.CarriesEveryField | txqueue.cpp:284-323 | The descriptors of a packet's stretch of the ring, from its context descriptor to its last fragment across the fragment ring's end, each carry the fields asked for |
| TxRing.PassCarries | txqueue.cpp:269-332 | This holds of every packet a pass has posted, none of whose slots a later one of the pass touched |
| TxQueue.TxQueue.PostContextDescriptor | txqueue.cpp:151-231 | One slot is written, and taken exactly if an offload is enabled; then it holds VLAN tag, header lengths, MSS and protocol bits of the packet; command and olinfo_status come out with VLE, TSE, IXSM and TXSM as the offloads ask |
| TxQueue.TxQueue.PacketLength | txqueue.cpp:285-291 | The sum of the lengths of the packet's fragments across the ring's end |
| TxQueue.TxQueue.PostFragments | txqueue.cpp:293-323 | One data descriptor per fragment in consecutive slots, each pointing at the fragment's address plus offset with its length, flags, checksum options and packet length, the last alone marked EOP and RS; no other slot changed |
| TxQueue.TxQueue.PostPacket | txqueue.cpp:279-328 | The packet's descriptors are in consecutive slots from the index on, its control block points at them, no other slot changes, the fragment ring moves on by the packet's fragments, and what was outstanding keeps its descriptors if these fit beside it |
| TxQueue.TxQueue.TransmitPackets | txqueue.cpp:255-338 | Whatever is outstanding: one pass writes exactly the descriptors of its course, packet by packet up to the first that does not fit before the ring's end, into consecutive slots, no other slot changes, and the tail follows; every field of each descriptor is the one its packet and fragment ask for; the queue stays consistent if they fit beside the outstanding ones |
| TxQueue.TxQueue.RoomIff | txqueue.cpp:269-277 | The slots a pass writes are none of the outstanding ones if and only if the descriptors it posts and the outstanding ones together fit in the ring |
| TxQueue.TxQueue.RoomBehindHead | txqueue.cpp:269-277 | It holds for every burst of packets when the outstanding descriptors do not reach around the end of the ring, an empty queue included |
| TxRuns.RoomCanFail | txqueue.cpp:269-277 | On every ring of even size with a context descriptor per packet: after as many one-fragment packets as fill it, all slots are outstanding, the tail stands at the head, and one more packet is enough for the next pass to have no room |
| TxRuns.Overwrite | txqueue.cpp:269-323 | That pass does write over them: with all slots outstanding and nothing reported, the first two come to hold the new packet's descriptors |
| TxQueue.TxQueue.TailMeetsHeadIff | txqueue.cpp:235-240 | The tail stands at the oldest outstanding descriptor if and only if nothing is outstanding or everything is: a full ring looks empty to the device |
| TxCourse.CanGetStuckIff | txqueue.cpp:269-277 | For every ring size and fragment limit: some sequence of offers and passes brings the queue to a standstill if and only if no context descriptor is used, the ring has an odd size, or a packet may have more than one fragment; the driver declares a limit of one |
| TxCourse.CourseIsPass | txqueue.cpp:267-332 | The pass over the packet ring and the pass over the fragment counts of the packets waiting post the same descriptors and leave the same packets |
| TxRuns.Serve | txqueue.cpp:371-382 | In any run of offers within the limit, hardware reports, and advances where the pass has room, the queue goes through a run of its index and the packets waiting, and is stuck only if that condition holds |
| TxRuns.GetStuck | txqueue.cpp:255-382 | With packets of one fragment only, each reported and completed before the next is offered, a queue without offloads, or with a ring of odd size, does get stuck with nothing outstanding |
| TxQueue.TxQueue.AdvanceOrStay | txqueue.cpp:269-277 | An advance leaves the first packet waiting where it is if and only if the queue is stuck, and then posts nothing and leaves it stuck |
| TxQueue.TxQueue.AdvanceWhileStuck | txqueue.cpp:269-277 | If the next packet needs more descriptors than there are up to the ring's end, no number of advances ever posts it, whatever the hardware reports and the framework offers in between |
| TxQueue.TxQueue.HardwareReports | txqueue.cpp:242-251 | A write-back by the hardware marks exactly its packet |
| TxQueue.TxQueue.IsPacketTransferComplete | txqueue.cpp:242-251 | For an outstanding packet: true exactly if the hardware has reported that packet |
| TxQueue.TxQueue.CompleteTransmitPackets | txqueue.cpp:342-367 | Packets leave as a prefix, each once: exactly those before the first unreported one, the fragment ring's Begin advancing by exactly their fragments |
| TxQueue.TxQueue.Advance | txqueue.cpp:371-382 | An advance posts the course of its pass, takes off what was reported, and keeps the rings consistent |
| TxCourse.ChainGrows | txqueue.cpp:279-283 | A packet the framework adds continues the chain of fragments |
| RxRing.DoneIffHeaderOdd | e1000_base.h:115-144 | As hdr_addr lies under status_error, a posted descriptor reads as done if and only if the header address is odd |
| RxRing.DoneIffReceived | rxqueue.cpp:87-95 | The oldest posted slot reads as done if and only if the device has filled it |
| RxRing.ReceiveKeeps | rxqueue.cpp:87-95 | A write-back by the device keeps every other slot as it was |
| RxRing.DeliverKeeps | rxqueue.cpp:177-178 | Indicating the oldest filled buffer keeps the ring consistent |
| RxRing.PostKeeps | rxqueue.cpp:188-213 | Posting a buffer overwrites no filled and no posted slot |
| RxRing.DeviceShare | rxqueue.cpp:210 | As the tail is the last slot posted, the device owns all posted buffers but that one |
| RxRing.OwnsOnlyPostedIff | rxqueue.cpp:341-343 | The slots the device may fill are all posted if and only if a buffer was ever posted, or the ring has one slot: the tail of the start-up hands over slots without a buffer |
| RxQueue.RxQueue.IndicateNext | rxqueue.cpp:97-178 | With the device at work between the test of DD and the read of the length, the packet is linked to its own fragment with the length the device wrote |
| RxQueue.RxQueue.IndicateReceives | rxqueue.cpp:79-180 | Packets are indicated in order and once each, with one fragment and its own length; everything received before the call is indicated as far as packets go |
| RxQueue.RxQueue.PostOne | rxqueue.cpp:186-216 | The slot holds the buffer's address and zero as header address, so that it does not read as done, before the tail write hands it to the device, which may be at work in between |
| RxQueue.RxQueue.PostBuffers | rxqueue.cpp:199-217 | Afterwards every offered buffer is posted |
| RxQueue.RxQueue.Advance | rxqueue.cpp:391-401 | Any number of advances keeps Begin, device head, Next and End in circular order and packets produced equal to fragments consumed |
| RxQueue.Serve | rxqueue.cpp:79-217 | Over any run of offers, receptions and advances the packets indicated are those received, in order and once each, with their own fragment and length; after a last advance all received before it are indicated as far as packets go, and all buffers are posted |
| PhyPageSafety.PagedAccessIsAtomic | e1000_phy.c:3247-3299 | In all interleavings of agents using the same functions every register access of the log is the one its call asked for: the page is the upper half of the address, the register the lower half, with its direction and value; the registers are those of a two-dimensional register file; one call at a time is between lock and unlock |
| PhyPageSafety.SuccessIsAnAccess | e1000_phy.c:3247-3299 | For address page * 0x10000 + offset: a call that reports success was carried out as an access to register `offset` on page `page`; a write stored its value, a read returned the register's |
| PhyPageSafety.FailedCallTouchesNothing | e1000_phy.c:3259-3261 | If the lock was not had, the page select failed, or the offset is out of range, the register is not accessed, then or later |
| PhyPageSafety.OneInside | e1000_phy.c:3255-3267 | The SW/FW semaphore lets one call in at a time |
| PhyPageSafety.StepKeeps | e1000_phy.c:292-431 | Every access to MDIC, every completion by the PHY however late, and every semaphore step keeps the invariant |
| PhyPageSafety.CompleteKeeps | e1000_phy.c:313-324 | A command that completes after its caller timed out still acts on its caller's page |
| PhyPageDriver.PhyPort.Attempt | e1000_phy.c:308-357 | One turn of the retry loop succeeds exactly if the last of at most 1920 reads of MDIC showed it ready, without error and naming the register, and then returns its data |
| PhyPageDriver.PhyPort.PhyRegMdic | e1000_phy.c:292-431 | The retry loop ends with the first attempt whose last reading of MDIC was ready, without error and named the register, or after one attempt more than the configured retries; an offset above 0x1F never reaches MDIC |
| PhyPageDriver.PhyPort.Acquire | e1000_i210.c:88-131 | The semaphore call under the PHY lock returns, with the lock or without |
| PhyPageDriver.PhyPort.Gs40g | e1000_phy.c:3247-3299 | For address page * 0x10000 + offset: success means this call accessed register `offset` on page `page`; failing before the second half means it accessed none; and how it ends follows from what MDIC showed for the two halves |
| Multicast.JoinIsSum | e1000_mac.c:565-567 | The two shifted address bytes do not overlap, so joining them is adding them |
| Multicast.JoinIsWindow | e1000_mac.c:565-567 | They form a window of the last two address bytes |
| Multicast.TableMask | e1000_mac.c:565 | The bitwise AND with the hash mask is the remainder by the table's size for 16 to 128 registers |
| Multicast.GenericBitShift | e1000_mac.c:522-523 | For every register count the loop stops; the shift it finds leaves 0xFF at the top of the mask exactly for tables of 16, 32, 64 and 128 registers |
| Multicast.HashMcAddrGeneric | e1000_mac.c:509-570 | The hash is the sixteen bits of the last two address bytes, shifted right by 7 less one per doubling of the table from 16 registers on, and by 0, 1, 2 or 4 less for filter types 0 to 3, modulo the table's size |
| Multicast.DocumentedHashes | e1000_mac.c:537-548 | On the address of the example in the comment the hash is 0x563, 0xAC6 and 0x634 for types 0, 1 and 3 as documented; for type 2 it is 0x58D, where the comment has 0x163 |
| Multicast.HashMcAddrVf | e1000_vf.c:357-378 | The loop ends at the one shift that leaves 0xFF at the top of the mask, and the hash is the window under the mask, bit by bit; for 16 to 128 registers it is the generic one with filter type 0 |
| Multicast.VfAgreesIff | e1000_vf.c:371-372 | Of all register counts for which the VF's loop ends at a shift the C expression is defined for, the two hashes agree on every address if and only if there are 16 to 128 registers; they differ for 8 and for 256 and more |
| Multicast.McFilter.UpdateMcAddrList | e1000_mac.c:580-606 | Bit b of MTA[r] is set if and only if some listed address hashes to 32r + b; no listed address is filtered out, and any other passes if and only if it collides with one |
| Multicast.McFilter.FillShadow | e1000_mac.c:588-600 | The shadow holds exactly the bits of the listed addresses |
| Multicast.BuildMcMessage | e1000_vf.c:400-436 | The message lists the hashes of the first thirty addresses; the overflow bit is always lost, as the word is overwritten after setting it |
| Multicast.MessageCoversListIff | e1000_vf.c:420-434 | Every listed address passes through the message if and only if each beyond the thirtieth collides with one of the first thirty |
| FlowControl.PauseAgreement | e1000_mac.c:1377-1514 | Two ends that advertise and resolve as this code does: PAUSE flows one way exactly if one asked to send and the other to receive; who may send faces one who honours; nobody gets a direction not asked for |
| FlowControl.AgreementNeedsAdvertisement | e1000_phy.c:1530-1562 | An end agrees with partners of every mode if and only if it advertises as this code does for the mode asked of it |
| FlowControl.SafeWithStandardPartner | e1000_mac.c:1415-1491 | The same agreement with any partner that resolves by IEEE 802.3, Annex 28B.3 |
| FlowControl.LinkPort.SetDefaultFc | e1000_mac.c:940-983 | The mode taken from NVM word 0x0F is the one that will advertise PAUSE as bit 12 has it, and ASM_DIR if bit 12 or 13 is set; it never is receive-only; a failed read changes nothing |
| FlowControl.LinkPort.SetupLink | e1000_mac.c:995-1028 | Success means the mode in effect is the one asked for, never the default, and is advertised, unless the PHY reset is blocked: then success means that nothing changed |
| FlowControl.LinkPort.PhySetupAutoneg | e1000_phy.c:1435-1577 | Success advertises the mode in bits 10 and 11 and the speeds in bits 5 to 8, and 1000BASE-T in bits 8 and 9 of its register, all other bits unchanged; a failure leaves the old advertisement, or the complete new one if only the last write failed |
| FlowControl.LinkPort.PcsSetupAutoneg | e1000_82575.c:1664-1680 | The mode asked for is advertised in bits 7 and 8 of the PCS register, no other bit changing |
| FlowControl.LinkPort.ForceMacFc | e1000_mac.c:1282-1332 | CTRL bits 27 (RFCE) and 28 (TFCE) equal the mode in effect, all other bits unchanged; an unset mode is refused |
| FlowControl.LinkPort.Resolve | e1000_mac.c:1439-1491 | The mode is the one IEEE 802.3, Annex 28B.3 gives, with sending withheld from an end that did not ask for both |
| FlowControl.LinkPort.ConfigFcAfterLinkUp | e1000_mac.c:1344-1641 | After a completed negotiation CTRL shows the resolved mode, none for half duplex on copper, for all other register bits; SerDes does not look at the duplex |
| FlowControl.Negotiate | e1000_mac.c:1344-1514 | Two copper ports, from the modes asked to the CTRL bits: if each sets up its link now or still advertises the mode asked of it, TFCE at one end implies RFCE at the other, and the directions are exactly those both want |

## Left out

- SemaphoreDriver.Port.ReleaseSwfwSync: does not state termination, because the release loop spins until it gets the semaphore and nothing bounds what the other agents do; `patience` limits the attempts followed, and the result says whether it was enough.
- PhyPageDriver.PhyPort.Gs40g: for the same reason says only that the call has returned if `patience` accesses were enough for the release.
- PhyPageSafety.SuccessIsAnAccess: register 0x16, the page select itself, is excluded, because accessing it as a target changes the page under the call; a write that was retried may have been carried out more than once.
- TxQueue.TxQueue.Advance: requires that the descriptors the pass will post fit beside the outstanding ones (`Room`), because the code's count of available descriptors ignores these (txqueue.cpp:269). `TransmitPackets` follows the pass itself without that; what completion and the device make of overwritten descriptors is not followed.
- TxQueue.TxQueue.PostFragments: a packet that is not ignored has at least one fragment, as the code writes through a null pointer otherwise.
- RxQueue.RxQueue.Receive: requires that a buffer was posted since the start, because EvtRxQueueStart hands the device slots without buffers; what frames that arrive in that window do is not followed.
- RxQueue.RxQueue.constructor: requires packet and fragment rings of one size of at most 4096, as the descriptor memory is sized by one and indexed by the other.
- NvmI210.I210Nvm.WriteSrwr: a write the device has not finished within the polls counts as not done; that it might still be carried out later is not modelled. For ranges beyond word 0x4000 only single words are followed (`WriteWord`, `SrwrIsExactIff`).
- NvmI210.I210Nvm.ReadSrrd: with more than 0xFE00 words the 16-bit counter of the loop never reaches their number (`CounterReachesIff`) and the code reads the same bursts over and over until one fails; `patience` bounds the turns followed, and `returned` says whether the call was over.
- NvmI210.I210Nvm.WriteSrwrI210: the same.
- NvmI210.I210Nvm.Acquire: the lock is granted or refused by an oracle; that it excludes others is what the semaphore modules prove of it.
- Multicast.HashMcAddrVf: requires a register count for which the loop ends at a shift of at most eight; for other counts the loop does not end or the C expression shifts by a negative number.
- FlowControl.LinkPort.SetupLink: the part of link set-up behind the advertisement (restarting negotiation, forcing speeds without it, the watermarks) is not followed.
- MailboxDriver.VfMailbox.ResetHwVf: what the reset does to the device; the reset indication may rise and fall at any time.
- NvmSpi.Nvm.Acquire: the grant may be refused or given, without its poll loop and the error flags of EECD that e1000_acquire_nvm_82575 clears; the semaphore part of it is modelled on its own.
- NvmChecksum.Nvm.Write: a failing write has stored the word or not; a device that stores something else is not modelled.
- Semaphore: the other bits of SWSM and SW_FW_SYNC, and firmware that does not keep to its half of the protocol.
- Mailbox: one VF at a time, since each has its own mailbox; the statistics counters; the PF's handling of messages, which is not in the repository.
- Interrupt: writes to IMC and EIMC, and re-enabling; a cause is followed until it is acted on. The ISR and DPC of different interrupt objects share no word.
- Receive checksum, VLAN and layout extensions: field copies.
- Flow-control watermarks and the fiber TXCW advertisement, which add no new case to the negotiation.
- PBA access to a physical EEPROM instead of an image: it goes through the NVM read and write functions modelled above.
- e1000_update_nvm_checksum_generic, the region form with offset 0.
- Delays, debug output, DMA memory allocation and flushes of posted writes.
- WDF and NetAdapterCx set-up, PnP, power, capability reporting and tracing: calls into libraries whose source is not here.
- PHY tuning scripts, cable length, polarity, LEDs, SerDes and SFP set-up, EEE and hardware counters: straight-line register writes.
- Microwire NVM and I2C bit-banging, which would repeat the SPI proof; the I2C read failure path releases its lock twice after the last retry (e1000_82575.c:3167-3179), so lock balance does not hold there.
- The RSS table, whose lane computation does not address 128 independent entries (adapter.cpp:308).
