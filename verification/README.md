# A verified model of sp-emu

sp-emu emulates an STM32H7 service processor (SP) and an LPC55 root of trust (RoT) on two host
threads.  This project models the parts of it that hold real state machines, protocols and codecs,
and proves what they keep over every run.  `dafny verify dfyconfig.toml` checks all of it.

Each component is a module.  The source's mutating objects are classes updated in place; every
method's contract ties the new state to a specification function of the old one, and the theorems
are lemmas about those functions over whole lists of operations, or over every interleaving of the
two threads.

| module | what it models | main results |
|---|---|---|
| `Exceptions` | M-profile exception entry and return, banked stacks, PUSH/POP, MSR (DDI 0403, B1.5.6 and B1.5.8) | a two-task context switch restores each task; a handler's POP {.., pc} restores the interrupted thread; the active stack pointer is always the right one; when a nested entry breaks an outer return |
| `Flash` | the SP's dual-bank flash controller (RM0433, 4.9.2 and 4.9.3) | a firmware update never changes a byte of the running image before the reset, and swaps exactly the new image in; durability |
| `RotFlash` | the RoT's flash command engine (UM11126, table 171) | an image of any number of pages reads back; pages marked erased are blank over every life of the part; blank check is exact |
| `Qspi` | the SP's external NOR flash | program and read back across the end of the array; nothing changes without the write-enable latch; durability |
| `SprotLink` | the two-thread SPI link between SP and RoT, with the SP's transfer waits and the RoT's park | lossless windows, start-of-transfer marking, acknowledgement counting, no wake-up lost by those waits, over every interleaving; exactly when both threads sleep |
| `IdlePark` | the SP serve loop's idle park | exactly when its wake-up is lost, and that it is lost no other way |
| `Clock` | SysTick frozen and driven by credit | time is conserved; neither core outruns the other by more than one tick, over every interleaving |
| `DecodeCache` | the PC-keyed decode cache | cached execution is uncached execution; which debug writes it survives |
| `RotSwd` | the raw SWD bit-stream decoder and its two-thread link (IHI 0031, B4) | every split of a write's 34 bits decodes to the word; the k-th read gets the k-th result |
| `DebugPort` | SW-DP and MEM-AP with posted reads, and the server's command stream (IHI 0031, B4 and C2) | block transfers; replies do not depend on how the socket cuts the stream |
| `Injection` | the SWD link driving that debug port | words clocked as raw bits land in RAM and read back, in every interleaving |
| `Cobs` | COBS framing and the endpoint demultiplexer | round trip, length, exact demultiplexing under any chunking |
| `Checksum` | the Internet checksum and the frames built around it (RFC 1071, RFC 8200 section 8.1, RFC 4443 section 2.3) | exactly which checksum fields are accepted; frames parse back |
| `Backlog` | the bridge's bounded, flow-fair receive queue | conservation, per-flow suffixes, who may be evicted, fair shares |
| `RxRing` | the Ethernet receive DMA ring | no popped frame is lost; frames arrive in ring order |
| `RomCall` | the resumable boot-ROM call | it takes exactly SETTLE_STEPS + 2 steps under any interrupts |

`Memory`, `Nor`, `Arithmetic` and `Wrappers` hold what several modules share: RAM read and written
as little-endian words, bytes that programming can only clear, powers of two, and optional values.

## Findings

Five things the code or its comments lead one to expect do not hold of the code.  Each comes with
its exact condition, and a closed instance that shows it.

- The park test of the RoT thread looks at SSA but not at SSD, so both threads can sleep until a
  timer runs out (`SprotLink.BothAsleepReachable`).  They do exactly when SSD is unacknowledged as
  the SP opens a transfer (`SprotLink.OpeningSleepsExactly`), or the FIFO is full as it clocks a
  byte with none open (`SprotLink.ClockingSleepsExactly`); over all reachable states, exactly for
  those two waits (`SprotLink.BothAsleepExactly`).
- The SP's idle park drains and samples under guards of their own before it waits, so a notify in
  between wakes nobody (`IdlePark.LostWitness`).  Its wake-up is lost exactly when it parks although
  a transaction was queued since the drain, the SP's reset was released since releases were taken,
  or rot-irq changed since the sample, and the notify is already over (`IdlePark.LostExactly`).  A
  rot-irq edge it did sample keeps it from parking only while line 9 is enabled
  (`IdlePark.LostOnAnEdge`).
- The three-address invalidation covers every instruction a debug write touches exactly when TAR is
  even (`DecodeCache.DroppedCoversExact`); after an odd byte write a stale instruction runs
  (`DecodeCache.OddTarIsStale`, `DecodeCache.StaleWitness`).
- Entries cached under debug survive leaving debug, although the comment says the gate keeps the
  mutable ITCM uncached.  Code stored over in between decodes right when debug comes back, whatever
  is stored, exactly when the store misses the instruction's four bytes
  (`DecodeCache.DebugGapExactly`, `DecodeCache.StaleWitness`).
- An exception taken from a handler leaves the MSP field at the handler's stack pointer; the return
  to a thread on the main stack restores it exactly when the handler had pushed nothing
  (`Exceptions.NestedEntryMovesMsp`, `Exceptions.OneWordBreaksOuter`).  A thread on the process stack
  always comes back, but what the handler had pushed stays on the main stack for good
  (`Exceptions.NestedEntryLeaksMsp`).

## Model

| member | source | states |
|---|---|---|
| `Exceptions.XpsrRoundTrip` | src/cpu.rs:1795-1816 | every flag, ITSTATE and the exception number come back from a stacked xPSR, for all values |
| `Exceptions.EnterParks` | src/cpu.rs:1912-2033 | entry leaves the preempted thread's whole frame, basic or extended, in memory below its stack pointer |
| `Exceptions.LeaveRestores` | src/cpu.rs:2034-2135 | any core whose bank points at a parked frame returns through that thread's EXC_RETURN to that very thread: registers, SP, PC, flags, ITSTATE, IPSR, SPSEL, FPCA and FP state |
| `Exceptions.StepKeepsBanked` | src/cpu.rs:1741-2135 | every entry, return, MSR and stack operation keeps the active stack pointer the process one exactly in Thread mode with SPSEL |
| `Exceptions.ControlRoundTrip` | src/cpu.rs:1778-1794 | switching stacks by CONTROL and switching back loses neither pointer |
| `Exceptions.RunKeepsParked` | src/cpu.rs:1741-2135 | a parked frame stays parked over any run that does not write it |
| `Exceptions.ContextSwitch` | src/cpu.rs:1741-2135 | one task interrupted, then anything at all that spares its frame, then MSR PSP and its EXC_RETURN: the task is restored |
| `Exceptions.TwoTaskSwitch` | src/cpu.rs:1741-2135 | A preempted, B resumed, run and preempted, A resumed: each gets its own state back and B is still resumable |
| `Exceptions.ThereAndBack` | src/cpu.rs:1741-2135 | for any two tasks with separate frames, switching over and straight back restores both |
| `Exceptions.PushPop` | src/cpu.rs:1667-1720 | PUSH {list, lr} then POP {list, pc} restores every listed register and SP and lands on the pushed LR |
| `Exceptions.HandlerRestoresThread` | src/cpu.rs:1667-2135 | a whole handler, from entry through prologue and body to the POP that is an exception return, restores the interrupted thread |
| `Exceptions.NestedReturn` | src/cpu.rs:1912-2135 | a nested handler's return gives the interrupted handler its SP back and leaves MSP at it |
| `Exceptions.NestedEntryMovesMsp` | src/cpu.rs:1912-2135 | after it, the outer return restores a thread parked on the main stack if and only if the outer handler had pushed nothing |
| `Exceptions.NestedEntryLeaksMsp` | src/cpu.rs:1912-2135 | a thread parked on the process stack is always restored, and MSP comes back with it if and only if the outer handler had pushed nothing |
| `Exceptions.RestoresExactly` | src/cpu.rs:2034-2135 | a return restores a thread parked on the main stack if and only if MSP points at its frame |
| `Exceptions.OneWordBreaksOuter` | src/cpu.rs:1912-2135 | a closed run: one word pushed, one nested entry, and the thread does not come back |
| `Exceptions.Cpu.ExceptionEntry` | src/cpu.rs:1912-2033 | in place: core and RAM become what the specification of entry says |
| `Exceptions.Cpu.ExceptionReturn` | src/cpu.rs:2034-2135 | in place: the core becomes what the specification of return says, RAM unchanged |
| `Exceptions.Cpu.MsrControl` | src/cpu.rs:1778-1794 | in place: a CONTROL write switches the active stack pointer exactly when mode and SPSEL say so, saving the one it leaves |
| `Exceptions.Cpu.MsrPsp` | src/cpu.rs:1741-1777 | in place: the process stack pointer is written, and r13 too when it is the active one |
| `Exceptions.Cpu.MsrMsp` | src/cpu.rs:1741-1777 | in place: the main stack pointer is written, and r13 too when it is the active one |
| `Exceptions.Cpu.StmdbSp` | src/cpu.rs:1667-1720 | in place: the listed registers are stored in ascending order below SP |
| `Exceptions.Cpu.LdmiaSp` | src/cpu.rs:1667-1720 | in place: listed registers are loaded, SP written back, and only then the PC value taken as a branch or an exception return |
| `Flash.SwapIsXor` | src/flash.rs:466-469 | the physical offset is the offset in the window, exclusive-ored with BANK_SIZE when swapped |
| `Flash.ViewsAreReads` | src/flash.rs:466-503 | the two views the theorems speak of are what byte reads of the two apertures return |
| `Flash.WideReadExact` | src/flash.rs:477-503 | a wide read is the byte reads, for every content, exactly when no swapped bank edge lies inside it |
| `Flash.RunningImageUntouched` | src/flash.rs:505-737 | no run of erases, upper-aperture stores, staging and commits, in any order, changes a byte of the lower aperture |
| `Flash.StoreHarmlessExact` | src/flash.rs:505-521 | a store spares the running image, whatever it stores, exactly when it starts in the upper aperture and does not run off a swapped window |
| `Flash.UnlockExact` | src/flash.rs:607-621 | the key pair unlocks exactly from an idle key sequencer |
| `Flash.EraseSignals` | src/flash.rs:632-648 | an armed erase on an unlocked bank raises EOP and the interrupt; on a locked bank nothing happens |
| `Flash.SignalsClear` | src/flash.rs:649-717 | writing EOP to the clear register clears it, and the interrupt is handed out once |
| `Flash.FirmwareUpdate` | src/flash.rs:466-737 | for any image up to a bank, from any swap state: unlock, erase, program, stage and commit leave the lower aperture as it was; after the reset it reads the image then 0xFF, and the upper reads the old bank |
| `Flash.Durable` | src/flash.rs:536-550 | after every operation of every run the file equals the array, and a new process starts with both in the last committed bank order |
| `Flash.RebootIsReset` | src/flash.rs:661-737 | when no slot was forced, a new process and a warm reset see the same two banks |
| `Flash.FlashDevice.constructor` | src/flash.rs:415-461 | the array is the image padded with erased bytes, the file a copy, the locks set |
| `Flash.FlashDevice.ReadAt` | src/flash.rs:477-483 | the bytes at the physical offset, erased past the array |
| `Flash.FlashDevice.StoreAt` | src/flash.rs:505-521 | nothing unless unlocked and programming; then bits only clear, the loop stops at the end of the array, and the file follows |
| `Flash.FlashDevice.LoadImageAt` | src/flash.rs:525-530 | an oversized load is cut at the window |
| `Flash.FlashDevice.WriteThrough` | src/flash.rs:536-550 | exactly the window of the file is overwritten |
| `Flash.FlashDevice.Erase` | src/flash.rs:705-712 | the bank behind the upper aperture is filled, and written through |
| `Flash.FlashDevice.SetReg` | src/flash.rs:605-703 | in place: lock flags, key sequencers, CR2 commands, staged and committed swap as the register write says |
| `Flash.FlashDevice.TakeEraseIrq` | src/flash.rs:715-717 | the interrupt is handed out once |
| `Flash.FlashDevice.SetSlot` | src/flash.rs:727-731 | a forced slot changes the three swap bits and not the persisted one |
| `Flash.FlashDevice.Reset` | src/flash.rs:735-737 | the effective mapping becomes the committed one |
| `RotFlash.SetErasedLaw` | src/rot_flash.rs:391-404 | the packed bitset: setting one page's bit changes no other page's |
| `RotFlash.LeastNotBlank` | src/rot_flash.rs:540-564 | blank check finds the least in-range word on a programmed page, or there is none |
| `RotFlash.CommandStatus` | src/rot_flash.rs:468-583 | from a cleared status every command completes; ECC and FAIL mean exactly what the driver takes them to mean |
| `RotFlash.ImageRuns` | src/rot_flash.rs:496-538 | erase, 32 writes and program per page, from any state and for any number of pages: the image is there, everything else is untouched, exactly those pages are programmed |
| `RotFlash.ImageReadsBack` | src/rot_flash.rs:496-583 | after that every single-word read succeeds and returns the image's word |
| `RotFlash.AnyLife` | src/rot_flash.rs:226-404 | over any loads, commands and restarts, every page marked erased is all 0xFF, and a restart finds array and bitset as they were |
| `RotFlash.BlankIsBlank` | src/rot_flash.rs:540-564 | a passed blank check means every whole word of the range reads 0xFF |
| `RotFlash.RotFlashDevice.CmdErase` | src/rot_flash.rs:497-508 | page by page, erased, marked and written through |
| `RotFlash.RotFlashDevice.CmdWrite` | src/rot_flash.rs:512-520 | DATAW0..3 become row STARTA mod 32 of the page buffer |
| `RotFlash.RotFlashDevice.CmdProgram` | src/rot_flash.rs:524-536 | the page keeps only bits set in the buffer, is marked programmed, and the buffer is blank again |
| `RotFlash.RotFlashDevice.CmdBlank` | src/rot_flash.rs:540-564 | the scan ends, with the status and DATAW0 the specification says |
| `RotFlash.RotFlashDevice.CmdRead` | src/rot_flash.rs:568-583 | ECC error on an erased page or outside the window, else the 16 bytes |
| `RotFlash.RotFlashDevice.PersistPages` | src/rot_flash.rs:637-683 | the pages and the bitset reach the files |
| `RotFlash.RotFlashDevice.RegWrite` | src/rot_flash.rs:455-493 | in place: each offset's register write and command, other offsets ignored |
| `Qspi.Durable` | src/soc.rs:2214-2328 | after every register access of every run the file equals the array, or there is none and the array is erased |
| `Qspi.NothingWithoutWren` | src/soc.rs:2272-2328 | without a write-enable no run changes array or file |
| `Qspi.ProgramRuns` | src/soc.rs:2304-2328 | a page program spread over five kinds of register write has the effect of programming all its bytes at once, and uses up the latch |
| `Qspi.ProgramReadsBack` | src/soc.rs:2205-2328 | over erased bytes, at any address, wrapping too, the data reads back exactly and nothing else changed |
| `Qspi.SectorUpdate` | src/soc.rs:2272-2328 | erase a sector, program within it, read back: the data is there whatever was before, and nothing outside the sector changed |
| `Qspi.ReadCompletes` | src/soc.rs:2336-2366 | a read shows as complete exactly when all its bytes have been taken |
| `Qspi.StatusAndId` | src/soc.rs:2177-2203 | the latch reads back in the status register, and the id is the part the drivers expect |
| `Qspi.ProgramOnlyClears` | src/soc.rs:2316-2319 | programming never sets a bit, and repeating it changes nothing |
| `Qspi.QspiDevice.WriteThrough` | src/soc.rs:2214-2268 | the first change creates the file as a copy of the array |
| `Qspi.QspiDevice.Erase` | src/soc.rs:2272-2299 | gated by the latch; a sector aligned down, or everything |
| `Qspi.QspiDevice.Program` | src/soc.rs:2304-2328 | gated by the latch; wraps, comes round again when longer than the array, and writes both segments through |
| `Qspi.QspiDevice.SetCcr` | src/soc.rs:2381-2448 | which transfer a command starts, and which end at once |
| `Qspi.QspiDevice.RegWrite` | src/soc.rs:2371-2485 | in place: the register at an offset, and CCR's fields taken from their bits |
| `Qspi.CcrFields` | src/soc.rs:2386-2390 | every combination of CCR's fields comes out of the word it was put into |
| `Qspi.QspiDevice.SetAr` | src/soc.rs:2449-2472 | the address completes a read, starts data collection, or erases |
| `Qspi.QspiDevice.PutDr` | src/soc.rs:2473-2483 | the last data byte starts the program |
| `Qspi.QspiDevice.GetSr` | src/soc.rs:2336-2354 | in place: the completion latch and the fill level |
| `Qspi.QspiDevice.GetDr` | src/soc.rs:2358-2366 | one byte of the response, then 0xFF |
| `SprotLink.RunKeepsInv` | src/sprot.rs:280-480 | the link's invariant over every interleaving of SP and RoT steps, notifies and timeouts |
| `SprotLink.WindowIsLossless` | src/sprot.rs:294-345 | the receive FIFO never exceeds 16 bytes; with no expired wait and rot-irq low, bytes read then bytes queued are the bytes clocked since the assert |
| `SprotLink.MarkedFrameStartsWindow` | src/sprot.rs:396-436 | a marked frame is the first of its chip-select window and holds its first bytes, even under timeouts |
| `SprotLink.MarkedReadExact` | src/sprot.rs:389-436 | the read that takes the mark returns the window's first two bytes if and only if two are there |
| `SprotLink.AssertsMatchAcks` | src/soc.rs:1456-1481 | asserts minus acknowledgements is 0 or 1, and SSA says which |
| `SprotLink.ReplyIsPrefix` | src/sprot.rs:299-337 | what the SP took is a prefix of what the RoT queued, unless a stall budget was spent |
| `SprotLink.NoLostWakeup` | src/gdb.rs:470-483 | a parked RoT that owes work has a notify still to come; and so has an SP in a transfer wait whose condition is over |
| `SprotLink.BothAsleepOnlyBetweenTransfers` | src/gdb.rs:470-483 | the threads never sleep on each other inside a transfer |
| `SprotLink.BothAsleepReachable` | src/gdb.rs:470-483 | they can between transfers |
| `SprotLink.OpeningSleepsExactly` | src/gdb.rs:470-483 | from a quiet link, opening a transfer and parking puts both to sleep if and only if SSD is unacknowledged |
| `SprotLink.ClockingSleepsExactly` | src/sprot.rs:302-330 | and clocking a byte with no transfer open, if and only if the FIFO is full |
| `SprotLink.BothAsleepExactly` | src/gdb.rs:470-483 | in every reachable state with the RoT parked, a waiting SP joins it in sleep exactly in those two waits, with budget left |
| `IdlePark.LostExactly` | src/gdb.rs:1002-1256 | for anything the RoT does during a pass of the loop, and any interrupt state, exactly when the pass parks on a wake-up it has lost |
| `IdlePark.SampleRuns` | src/gdb.rs:1002-1161 | what the drain, the taking of a release and the sampling leave, whatever the RoT does between them |
| `IdlePark.LostWitness` | src/gdb.rs:1221-1256 | it happens with line 9 enabled |
| `IdlePark.LostOnAnEdge` | src/mem.rs:325-328 | and with line 9 disabled even after an edge was sampled |
| `IdlePark.ParkedIsWoken` | src/gdb.rs:1221-1256 | a park entered without a loss never suffers one |
| `IdlePark.TimerRecovers` | src/gdb.rs:1002-1256 | after the timer the next pass has seen to everything owed by its sampling, and an edge that still stands keeps it from parking exactly when line 9 is enabled or something else is pending |
| `SprotLink.LinkCell.Txdr` | src/sprot.rs:323-337 | one byte out, dropped when the FIFO is full; one in, zero when there is none |
| `SprotLink.LinkCell.ChipSelect` | src/soc.rs:1452-1495 | edges latch SSA and the mark, or SSD, and drop stale request bytes |
| `SprotLink.LinkCell.FifoRd` | src/sprot.rs:396-436 | two bytes and the mark, which it consumes |
| `SprotLink.LinkCell.FifoWr` | src/sprot.rs:472-482 | two reply bytes, upper first |
| `SprotLink.LinkCell.StatWrite` | src/sprot.rs:441-458 | write-one-to-clear of both latches |
| `SprotLink.LinkCell.FifoCfg` | src/sprot.rs:460-471 | either FIFO is emptied |
| `SprotLink.LinkCell.Refresh` | src/sprot.rs:505-537 | rot-irq, and the end of the request it answers |
| `Clock.FrozenLaw` | src/cpu.rs:643-696 | while frozen, ticks plus credit plus an armed tick is kept by every step, exactly unless an armed tick reloads to one |
| `Clock.ChangeIsNoticed` | src/cpu.rs:1839-1850 | a change of SYST_CSR or SYST_RVR takes effect within 256 instructions, wherever in the 256 the change falls |
| `Clock.OneTickAPeriod` | src/cpu.rs:1839-1882 | unfrozen, exactly one tick in every reload period, from any instruction count and through every refresh of the cached registers |
| `Clock.CreditDrains` | src/cpu.rs:655-680 | idling turns credit into ticks one for one, then the clock stands still, refreshes included |
| `Clock.WindowLaw` | src/gdb.rs:957-1058 | over a whole window the time owed grows by at most the RoT ticks observed, and by exactly those when the cap did not bite |
| `Clock.CoupledTicks` | src/gdb.rs:957-1058 | the SP gains at most the observed RoT ticks plus one |
| `Clock.CreditIsExact` | src/gdb.rs:77-86 | however cycles are cut into iterations, the remainder is exact and the credit is the exact quotient if and only if no iteration was capped |
| `Clock.EndoscopeTicks` | src/gdb.rs:366-383 | in every interleaving of the two threads the RoT gains at most one tick more than the whole milliseconds the SP executed |
| `Clock.SysTick.Advance` | src/cpu.rs:1839-1882 | in place: refresh, freeze, count down, reload; a tick is counted whether or not it is delivered |
| `Clock.SysTick.Wfi` | src/cpu.rs:643-696 | in place: credit, frozen idle, or the ordinary throttle |
| `Clock.SysTick.Observe` | src/gdb.rs:1036-1058 | in place: credit is bounded by the cap, and dropped outside a window |
| `DecodeCache.DroppedCoversExact` | src/cpu.rs:378-386 | the three dropped addresses are every instruction a write of 1, 2 or 4 bytes touches, wrap-around included, exactly when TAR is even |
| `DecodeCache.OpKeepsCoherent` | src/cpu.rs:475-493 | misses, debug writes, stores elsewhere and the flush keep every entry equal to a fresh decode |
| `DecodeCache.CacheRefinesFetch` | src/cpu.rs:475-493 | over every proper run the cached machine decodes what the uncached machine decodes |
| `DecodeCache.HistoryRefinesFetch` | src/cpu.rs:475-493 | so it does over every run that, by its own history, stores over no instruction it has executed and writes the ITCM at even addresses |
| `DecodeCache.StoreSparesExactly` | src/cpu.rs:606-620 | a store leaves an instruction's fetch alone, for every content, exactly when it misses its four bytes |
| `DecodeCache.OddTarIsStale` | src/debugport.rs:242-256 | after a byte write at an odd TAR a changed instruction is served stale |
| `DecodeCache.DebugGapIsStale` | src/cpu.rs:475-493 | an entry cached under debug outlives it and is served stale when debug comes back |
| `DecodeCache.DebugGapExactly` | src/cpu.rs:475-493 | the gap is safe for every coherent core, content and decoder exactly when the store misses the instruction's four bytes |
| `DecodeCache.StaleWitness` | src/cpu.rs:378-493 | both stale runs, on a concrete memory, byte and decoder |
| `DecodeCache.Cache.FetchDecode` | src/cpu.rs:480-493 | in place: hit, miss, or uncached |
| `DecodeCache.Cache.InvalidateDecode` | src/cpu.rs:378-386 | in place: exactly three addresses go, and none when the cache is empty |
| `DecodeCache.Cache.FlushDecodeCache` | src/cpu.rs:391-393 | in place: all entries go |
| `RotSwd.RequestDecodes` | src/rotswd.rs:146-158 | every request byte decodes to its fields, whatever its parity bit |
| `RotSwd.WriteDecodes` | src/rotswd.rs:146-213 | for every word and every split of the 34 bits into frames other than 4 bits long, dummies anywhere, exactly one request carries exactly the word |
| `RotSwd.ReadOnWire` | src/rotswd.rs:114-130 | the four read frames are the word LSB first and an even parity bit |
| `RotSwd.LinkRuns` | src/gdb.rs:797-1015 | the link's invariant over every interleaving of register accesses, the serve loop's drain and bursts of SP instructions |
| `RotSwd.ReadsInOrder` | src/gdb.rs:797-1015 | with the SP running in between: requests execute once each in issue order, at most one read is outstanding, and the k-th word handed back is what the k-th read was answered with when it executed |
| `RotSwd.HaltedReadsInOrder` | src/gdb.rs:1002-1015 | with the SP halted, that is the result of the k-th read in sequential execution |
| `RotSwd.WritesIssue` | src/rotswd.rs:132-213 | polls, pops and the serve loop between the frames of writes do not change the requests they decode to |
| `Injection.SequentialIsRun` | src/debugport.rs:136-214 | serving requests one after another is running the commands on the debug port |
| `Injection.InjectedOverBits` | src/rotswd.rs:132-213 | words clocked as raw bits, cut and interleaved anyhow, end up in the SP's RAM exactly |
| `Injection.InjectedReadsBack` | src/gdb.rs:1002-1015 | and the words handed back are the stale one, then the block |
| `RotSwd.RotSwdSpi.Fifowr` | src/rotswd.rs:132-213 | in place: decoder state and the queued request |
| `RotSwd.RotSwdSpi.MaybeSupplyReadData` | src/rotswd.rs:114-130 | in place: read data only once the ACK has been read |
| `DebugPort.ReadsAnswer` | src/debugport.rs:136-214 | exactly the reads answer with data |
| `DebugPort.PowerUpAcknowledged` | src/debugport.rs:156-167 | each power-up request reads back acknowledged, the rest unchanged |
| `DebugPort.LaneRoundTrip` | src/debugport.rs:231-256 | a narrow write comes back in its own byte lane, the others clear |
| `DebugPort.BlockTransfer` | src/debugport.rs:152-256 | N words written and read back come in order, delayed by one posted read, from any plain RAM; RAM holds them |
| `DebugPort.ProcessConcat` | src/glasgow.rs:255-303 | executing a stream in two parts is executing it whole |
| `DebugPort.ChunksDoNotMatter` | src/glasgow.rs:105-303 | when no prefix of the command bytes leaves the core running, replies and port state are the same for every way the socket cuts frames and commands |
| `DebugPort.HaltedHoweverCut` | src/glasgow.rs:105-303 | a command stream that keeps the core halted does so under every chunking |
| `DebugPort.StreamRunsCommands` | src/glasgow.rs:255-303 | the encoded bytes of any commands run those commands, with one reply each, in order |
| `DebugPort.SwdServer.DoTransfer` | src/debugport.rs:136-214 | in place: one DP or AP transfer |
| `DebugPort.SwdServer.ProcessSwd` | src/glasgow.rs:255-303 | in place: every complete command is executed, a partial one kept |
| `Cobs.RoundTrip` | src/glasgow.rs:318-366 | every byte string survives framing |
| `Cobs.EncodeShape` | src/glasgow.rs:318-342 | no zero byte, and at most length + length/254 + 1 bytes |
| `Cobs.ChunksDoNotMatter` | src/glasgow.rs:129-144 | the endpoint streams do not depend on the chunking, for every byte stream, malformed ones too |
| `Cobs.DemuxIsExact` | src/glasgow.rs:129-144 | any frames cut into any chunks demultiplex to exactly the two byte streams |
| `Cobs.CobsEncode` | src/glasgow.rs:318-342 | the placeholder loop computes the block-by-block encoding |
| `Cobs.CobsDecode` | src/glasgow.rs:346-366 | the loop computes the decoding, a zero code or a short block being malformed |
| `Cobs.CobsFrame` | src/glasgow.rs:307-314 | the framed message |
| `Cobs.Transport.ReceiveChunk` | src/glasgow.rs:129-144 | in place: every complete frame is delivered, the rest kept |
| `Checksum.FoldIsResidue` | src/bridge.rs:881-883 | folding is addition mod 65535, with 0 only for 0 |
| `Checksum.AcceptedExactly` | src/bridge.rs:864-887 | exactly which field values a receiver accepts, odd lengths included |
| `Checksum.ChecksumAccepted` | src/bridge.rs:864-887 | the value filled in is accepted; over UDP it is the only non-zero one |
| `Checksum.ComputeChecksum6` | src/bridge.rs:864-887 | the loops compute it, no value leaves 32 bits, and folding ends |
| `Checksum.AddWords` | src/bridge.rs:865-874 | the loop adds the big-endian words and an odd last byte |
| `Checksum.BuiltParses` | src/bridge.rs:741-770 | every frame built parses back to its fields, tagged or not |
| `Checksum.BuildUdp6` | src/bridge.rs:661-680 | the frame for a datagram, checksum filled in |
| `Checksum.UdpArrives` | src/bridge.rs:661-680 | it parses to a datagram that verifies, with the ports, length and data given |
| `Checksum.ControlArrives` | src/bridge.rs:682-738 | neighbour advertisement and echo reply verify |
| `Backlog.BacklogRuns` | src/bridge.rs:623-656 | over every run: at most 32 queued, every frame accounted for once, each flow's queue the newest of its arrivals |
| `Backlog.ControlIsLast` | src/bridge.rs:634-653 | a control frame is evicted only when no client frame is queued |
| `Backlog.PopOrder` | src/bridge.rs:840-851 | control frames go first, oldest first, then the oldest frame |
| `Backlog.VictimHasItsShare` | src/bridge.rs:630-653 | only a flow holding at least its share of the client frames loses one |
| `Backlog.Counts` | src/bridge.rs:631-635 | the counting loop |
| `Backlog.Busiest` | src/bridge.rs:637-641 | some maximal client flow, whatever the iteration order |
| `Backlog.Queue.PushRx` | src/bridge.rs:623-656 | in place: append, and evict at an admissible position on overflow |
| `Backlog.Queue.EthRx` | src/bridge.rs:840-851 | in place: control frames first, oldest first |
| `RxRing.SpaceSuffices` | src/mem.rs:587-594 | space means the injection cannot fail |
| `RxRing.PumpDelivers` | src/mem.rs:564-665 | the pump ends, and every frame taken sits in the next slots in order, tag in RDES0, cut at 1536 bytes |
| `RxRing.DriverSlotsUntouched` | src/mem.rs:598-665 | a descriptor the driver owns, and its buffer, are never written |
| `RxRing.BuiltIsUntagged` | src/mem.rs:623-641 | a frame the bridge built arrives untagged with its VLAN id beside it |
| `RxRing.RxDma.EthRxInject` | src/mem.rs:598-665 | in place: one frame into the next descriptor |
| `RxRing.RxDma.PumpEth` | src/mem.rs:564-583 | in place: the loop terminates because each pass takes one descriptor |
| `RomCall.CallRuns` | src/romapi.rs:103-152 | under any interrupts and other traps the call counts only its own steps |
| `RomCall.Authenticate` | src/romapi.rs:103-152 | it completes at step SETTLE_STEPS + 2, with the verdict and pointer of the first, at the caller's return address |
| `RomCall.NotBefore` | src/romapi.rs:103-152 | and not before |
| `RomCall.SecondCallerIsAbsorbed` | src/romapi.rs:124-151 | at whatever step of the thread's call a handler enters the trap, its steps finish that call: it gets the thread's verdict, through the thread's pointer, and the thread starts again |
| `RomCall.RomCore.RomDispatch` | src/romapi.rs:103-152 | in place: one step at a trap |

## Left out

- Exceptions.NestedEntryMovesMsp: exceptions taken from a handler that has pushed are not restored by the code; the lemma says exactly when they are, and the round trips are for entries from Thread mode.
- RotFlash.RotFlashDevice.CmdErase: asks for STARTA and STOPA in order and inside the window, as the source's write-through does.
- Qspi.QspiDevice.Program: asks that a write-enabled program's second segment, which starts at 0, end inside the array, as the source's slice does.
- RomCall.Authenticate: memory is words by address; overlapping unaligned words are not modelled, and the image verdict is any function of memory and start address.
- Clock.SysTick.Advance: the 64-bit tick counter's wrap is not modelled.
- DebugPort.ChunksDoNotMatter: a core that a command resumes is not covered; it reacts to when commands arrive.
- IdlePark.LostExactly: console input and the choice of park length are not modelled; what transactions and instructions do to the interrupts is any change at all.
- Clock.OneTickAPeriod: SYST_CSR and SYST_RVR do not change during the run; `Clock.FrozenLaw` and the window laws let them.
- Clock.CreditDrains: nor do they here.
- DecodeCache.CacheRefinesFetch: decoding is any function of four bytes; the instruction decoder is not part of this model.
- The serve loop's burst sizes and its servicing of a self-reset, and interrupt collection in the NVIC.
- Host I/O failures: the backing files are byte sequences that writes reach, and a full-size file is assumed where one exists.
- Wall-clock behaviour: a bounded wait either ends by notification or runs out.
- The IPC form of the link to a RoT in another process, and the sidecar's other chip selects.
- Block transfers other than PUSH and POP, and everything else instructions compute.
- Signature checking, CFPA and CMPA parsing, and the hash engine.
- The transmit ring and address learning of the bridge; replies from the network are only queued.
- Register stubs with fixed answers, tracing, statistics, dumps, configuration and the command line.
