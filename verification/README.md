# PSPLINK: a verified model

PSPLINK is a debugger shell for a console that is linked to a PC over USB. This project
models the parts of it that hold logic rather than device calls and proves what they
promise, for every input, every run and every interleaving.

- **HostFS link** (`Usb`, `Wire`, `Protocol`, `Sessions`, `Progress`, `Handlers`,
  `RemoteFile`, `RemoteCalls`): threads of the PSP
  share one bulk pipe under a semaphore; the PC tells frames apart by their first word only.
  The link is a step system of threads, semaphore, two pipes of transfers and the PC's
  position; a thread returns from a command with the answer of its own handler. On top of
  it, remote reads and writes are cut into 64 KiB blocks, each of them an exchange on that
  link in any interleaving, and still are one plain read or write of the PC's file.
- **Rings fed at interrupt level** (`Ring`, `AsyncChannels`, `Kprintf`, `Tty`): one 4096-byte
  ring with three wakeup disciplines. Each critical section is one step.
- **Code patches** (`Overlay`, `Mips`, `Plants`, `Debugger`, `GdbStub`, `HookTable`):
  breakpoints, step plants over them, and syscall hooks are layers of patches over a table
  of words. The step planner is compared with the branch and jump pages of chapter 3 of
  "MIPS32 Architecture for Programmers, Volume II".
- **GDB packets** (`GdbPacket`, `GdbMemory`, `GdbSession`): framing, checksum, hex and
  escaped binary of the GDB Remote Serial Protocol, up to whole M, X, m, G and g packets
  and what they do, past the step plants, to the trapped program.
- **Parsers** (`NormalizePath`, `PathMap`, `Evaluator`, `Tokenizer`, with `CStrings` and
  `Chars`): the in-place path normaliser, the PC's path mapping, address expressions and
  the command-line tokenizer.

Each component has a specification on values (functions over texts, sequences and
states), the source's loops and in-place updates as methods and classes proved against it,
and lemmas about the specification. `Bytes`, `Bits`, `Options`, `Sequences`, `HostFs`,
`Overlay`, `Ring`, `CStrings` and `Chars` are shared.

Words are explicit integers below 2^32; wrap-around, sign and truncation are written out.
Memory of the debuggers is the 2^28-byte physical space as words, because the code tells
addresses apart modulo the top nibble.

## What the code does not do

Where a promise fails, a lemma gives the exact condition under which it holds.

- A step covers every successor of an instruction exactly unless the word is a coprocessor
  branch with a condition code other than 0, or, in the GDB stub, SYSCALL (planted at
  `$ra`): `Mips.StepCoversExactly`.
- After an exception no step is pending exactly if the exception was on a planted or broken
  address or no step was pending: `Debugger.NoPlantsAfterExactly`; a concrete run leaves a
  plant in the program: `Debugger.PlantsStayBehind`.
- Setting or deleting a breakpoint keeps the layers exactly if no plant of a pending step is
  on its word, but where the program has a break of its own: `Debugger.SetBpExactly`,
  `Debugger.DeleteBpExactly`. A step on a breakpoint traps on it again:
  `Debugger.BreakIsStepped`. Taking
  the breakpoints away before the plants gives the program back exactly if no word carries
  both, with the same exception: `Overlay.WrongOrderExactly`, with a table that shows the
  failure in `Overlay.WrongLayerOrderLeavesAPatch`.
- getpacket accepts a frame that overflowed its buffer exactly when its bytes sum to 0xff,
  and strips two bytes of a good packet exactly when a ':' stands at index 2, which for
  payloads under two bytes may be a stale one: `GdbPacket.OverflowIsAcceptedExactly`,
  `GdbPacket.Resynchronises`.
- mem2hex does not look at the end of the 2048-byte reply: an m packet runs over it exactly
  for 1024 readable bytes or more, or more than 1024 before the first unreadable one
  (`GdbMemory.ReadOverrunsExactly`, `GdbMemory.Mem2HexTo`). What M can write always fits
  (`GdbMemory.HexWritesFitReplies`); X can write 1024 bytes that do not
  (`GdbMemory.BinaryWriteOutgrowsReply`).
- Unregistering a channel behind a reader's wait leaves the reader a null pointer
  (`AsyncChannels.UnregisteredBehindWait`); in every run without that it finds its channel
  open (`AsyncChannels.WokenFindsOpen`).
- On a full-speed link the PC's 512-byte read runs past exactly the async packets that fill
  their 64-byte packets: `Wire.FullSpeedHeadsExactly`.
- A terminal read sleeps with input queued exactly when it asks for less than one byte:
  `Tty.NoLostWakeupExactly`.
- The path mapper sees 255 components: a path of plain names keeps them exactly if it has
  no more (`PathMap.GenSeesAllExactly`), and a name behind them is lost
  (`PathMap.DroppedNameIsLost`).
- make_path tests the length of a path before gen_path adds a first or last slash to it.
  `PathMap.MakePathInto` reports exactly the calls that run over the buffer's end;
  `PathMap.LongDirectoryOverruns` is one, and they all lie in its last two places
  (`PathMap.OverrunsOnlyAtTheEnd`).
- The evaluator applies all '*' before all '~', whatever their written order. The two agree
  for every value in every environment exactly when every '*' has an even number of '~'
  behind it (`Evaluator.WrittenOrderEverywhereExactly`), and a tree with only such operands
  means what is written (`Evaluator.DecodesAsWritten`). For a given value they agree also
  where both fail (`Evaluator.WrittenOrderExactly`); `Evaluator.ParserRefusesWrittenOrder`
  is an operand only the written order gives a value.
- The tokenizer drops an empty last argument and reads one argument less than max_args:
  `Tokenizer.RoundTripExactly`, `Tokenizer.KeepsWhatFits`.
- putpacket does not rewind its buffer on a NAK: the k-th attempt sends k copies, and the
  buffer holds them exactly while k times the frame's length is at most 4096
  (`GdbPacket.CopiesFitExactly`, `GdbPacket.PutPacketTo`).

## Model

| member | source | states |
|---|---|---|
| Usb.ReadsOneTransferExactly | usbhostfs_pc/main.c:2256-2272 | a bulk read returns exactly one transfer, whatever is queued behind it, if and only if the transfer fits the read; otherwise it runs on into the next one |
| Usb.ReceivesThrough | usbhostfs_pc/main.c:2256-2272 | a fitting read leaves precisely the packets behind the transfer |
| Usb.ChunksMatchReads | usbhostfs_pc/main.c:2192-2235 | for every length the 64 KiB read sizes of do_bulk equal the transfer sizes of write_data one for one |
| Usb.TakesWhatWasWritten | usbhostfs_pc/main.c:2203-2228 | reading block by block gives back the bytes written, and nothing that follows them |
| Usb.Pipe.WriteData | usbhostfs/main.c:393-460 | the 64 KiB loop appends exactly the transfers of the data to the pipe |
| Usb.Pipe.ReadBlocks | usbhostfs_pc/main.c:2192-2235 | the block loop takes exactly the data written from the front of the pipe |
| Wire.DecodeNumber | usbhostfs_pc/main.c:2069-2171 | the command numbers and their dispatch are inverse to each other |
| Wire.HeadWords | usbhostfs/host_driver.c:33-82 | each header host_driver.c builds has its magic, command and extralen where the PC looks for them, and the length the handler demands |
| Wire.HeadFits | usbhostfs_pc/main.c:2256-2272 | at high speed every header is met by one 512-byte read |
| Wire.FullSpeedHeadsExactly | usbhostfs_pc/main.c:2256-2272 | at full speed that fails for exactly the async packets that fill their packets without filling the read |
| Protocol.StepKeeps | usbhostfs/main.c:462-575 | every enabled step of any thread or of the PC keeps the invariant: whole frames in the pipe, mutual exclusion, commands and responses in lockstep |
| Protocol.AcquireKeeps | usbhostfs/main.c:470-475 | taking the semaphore keeps the invariant and appends one whole frame to what the PC has to read |
| Protocol.SendKeeps | usbhostfs/main.c:482-500 | each write keeps the invariant and moves the front of the holder's frame into the pipe |
| Protocol.DispatchHead | usbhostfs_pc/main.c:2279-2312 | the loop's dispatch on a genuine header starts the handler that belongs to it, with its fields and extra length |
| Protocol.NextIsHead | usbhostfs_pc/main.c:2256-2258 | at the loop's read the front transfer is the next operation's header, never payload |
| Protocol.BulkBlock | usbhostfs_pc/main.c:2203-2220 | each read of do_bulk meets exactly one transfer, which continues the data |
| Protocol.ResponseIsGood | usbhostfs/main.c:515-530 | a response's extralen is at most the caller's inlen, and 0 when inlen is 0 |
| Protocol.PcRespondKeeps | usbhostfs_pc/main.c:1063-1128 | answering keeps the invariant, and what is on its way to the waiting thread is that answer: one header, and its extra data as the next transfer |
| Sessions.PcServesOperationsInOrder | usbhostfs_pc/main.c:2237-2324 | for every interleaving the PC makes of the operations exactly what they say, in semaphore order; no exchange fails |
| Sessions.PipeHoldsWholeFrames | usbhostfs/main.c:543-575 | between frames the pipe and what its one writer has still to add is a concatenation of whole frames |
| Sessions.LoopReadsOneHeader | usbhostfs_pc/main.c:2254-2272 | each 512-byte read returns exactly one header, whatever packets follow |
| Sessions.ExchangeLeavesPipesEmpty | usbhostfs/main.c:462-540 | when a command's exchange is over both pipes are empty and everything sent is served |
| Sessions.ReceivesOwnAnswer | usbhostfs/main.c:502-536 | over every run, a thread that returns from a command holds exactly the result and the extra data that its own handler gave for the arguments it sent |
| Sessions.ExtraDataFits | usbhostfs/main.c:521-530 | while a thread waits for extra data, at most inlen bytes are announced and arrive as one transfer |
| Sessions.SomeoneCanMove | usbhostfs/main.c:462-575 | no deadlock: while a thread is inside an operation some step is enabled |
| Progress.StepsDecrease | usbhostfs/main.c:393-575 | every step but the start of an operation leaves less to do |
| Progress.RunsEnd | usbhostfs/main.c:393-575 | without new operations a run has no more steps than there is to do |
| Progress.EveryExchangeReturns | usbhostfs/main.c:462-575 | carried as far as it goes, such a run returns from every operation that was begun |
| Sessions.FragmentsJoin | usbhostfs/main.c:797-842 | the payloads of the 504-byte packets of usbAsyncWrite concatenate to the data |
| Sessions.AsyncWriteArrives | usbhostfs_pc/main.c:2173-2190 | whatever other channels send in between, at every moment a channel's socket has received a beginning of the data of its writes, and once the PC has caught up all of it |
| Sessions.UsbAsyncWrite | usbhostfs/main.c:797-842 | the loop cuts the data into exactly those packets |
| Handlers.HandleDread | usbhostfs_pc/main.c:1216-1279 | the next directory entry with the number left, 0 at the end, -1 for a descriptor that is not open; nothing but its position changes |
| Handlers.ListsEveryEntry | usbhostfs_pc/main.c:1239-1262 | reading until 0 lists every entry from the position on, once and in order |
| Handlers.CountsWhatIsLeft | usbhostfs_pc/main.c:1239-1262 | the result is the number of entries still to be listed, and the entry given is the first of them |
| Handlers.Answer | usbhostfs_pc/main.c:840-2003 | every handler but those of READ and WRITE answers with a response of its size, in which the caller finds its result and, for LSEEK, the offset, and with the stat block or drive information of GETSTAT and DEVCTL exactly on success |
| RemoteFile.WritesJoin | usbhostfs_pc/main.c:939-967 | two adjoining writes are one write of both pieces |
| RemoteFile.ReadsJoin | usbhostfs_pc/main.c:1032-1061 | two adjoining reads are one read of both lengths |
| RemoteFile.FixedRead | usbhostfs_pc/main.c:1032-1061 | over short and interrupted reads, the bytes gathered are one plain read, short only at the end of the file; a failure gives its error instead |
| RemoteFile.FixedWrite | usbhostfs_pc/main.c:939-967 | over short and interrupted writes, a prefix is stored contiguously and its length returned; less than all of it only if a write failed or moved nothing |
| RemoteFile.HandleRead | usbhostfs_pc/main.c:1063-1128 | for any file, failing ones included: the answer carries as many bytes as its result says, none on failure, and never more than the wire allows |
| RemoteFile.HandleWrite | usbhostfs_pc/main.c:969-1030 | the result counts the stored prefix, is negative on failure, and -1 for a file that is not open |
| RemoteCalls.HandlerSeesRequest | usbhostfs_pc/main.c:2069-2171 | the handler that runs for a waiting thread is given the code, fields and extra data the thread sent |
| RemoteCalls.WaitingStep | usbhostfs/main.c:470-475 | whatever others do, a thread without the semaphore has been answered nothing |
| RemoteCalls.HolderStep | usbhostfs/main.c:477-540 | with the semaphore, no step of another thread changes what its exchange was answered |
| RemoteCalls.ReadExchange | usbhostfs_pc/main.c:2254-2312 | the PC's reads answer nobody; only a handler does |
| RemoteCalls.Connection.CommandXchg | usbhostfs/main.c:462-540 | in any interleaving, when the exchange returns the received header and data are the answer of the one handler call that ran on the file; it has not returned only while a step is still possible |
| RemoteCalls.ReadBlocks | usbhostfs/host_driver.c:139-243 | the block loops deliver the file's bytes in order, stop at a short or failing block, and lose only what a failing read had moved |
| RemoteCalls.UsbReadData | usbhostfs/host_driver.c:117-246 | over the wire, min(len, size - pos) bytes of the file from pos, with pos moved past them; a failing read returns a prefix or its error |
| RemoteCalls.UsbWriteData | usbhostfs/host_driver.c:255-383 | over the wire, the prefix stored lies contiguously from pos, also when calls take less than they are given, and on a file that does not fail the result is its length; it is all of the data, with its length returned, unless a write(2) failed or moved nothing |
| Ring.PutAppends | usbhostfs/main.c:644-655 | a byte put into a ring with room goes behind the queued ones, write_pos == (read_pos + size) mod 4096 included |
| Ring.PutKeepsQueuedCells | tools/kprintf/main.c:37-43 | a producer that respects the count never touches a queued cell |
| Ring.DropOneMore | usbhostfs/main.c:761-767 | taking one byte at a time is taking them at once |
| Ring.ByteRing.PutMany | usbhostfs/main.c:644-655 | the copy loop appends exactly the prefix there is room for |
| Ring.ByteRing.Take | usbhostfs/main.c:761-767 | the read loop hands over the oldest n bytes in order and leaves the rest |
| AsyncChannels.NoWakeupIsLost | usbhostfs/main.c:740-778 | over any run a registered channel with bytes in it has its event bit set unless a reader is between wait and re-arm |
| AsyncChannels.UnregisteredBehindWait | usbhostfs/main.c:717-760 | a concrete run leaves a woken reader without its channel |
| AsyncChannels.WokenFindsOpen | usbhostfs/main.c:740-760 | over every run that does not unregister the channel, a woken reader finds it open |
| AsyncChannels.ChannelConserves | usbhostfs/main.c:627-665 | per channel, bytes read plus bytes buffered are the accepted prefixes of the packets since the last reset, in order |
| AsyncChannels.ResetEmpties | usbhostfs/main.c:780-795 | a flush, a registration or an unregistration leaves the channel empty and, if open, its bit clear |
| AsyncChannels.RegistersExactly | usbhostfs/main.c:667-715 | the channel asked for if it is free, or the first free one from 4 on, is opened empty, and no other changes; refused only where there is none |
| AsyncChannels.PacketReachesItsChannel | usbhostfs/main.c:627-665 | a packet goes behind the bytes of the open channel it names, as far as there is room, and raises its bit; no other channel changes |
| AsyncChannels.ReadTakesWhatIsThere | usbhostfs/main.c:760-773 | a read hands out the oldest min(len, size) bytes, and the bit is up if some remain |
| AsyncChannels.Channels.FillAsync | usbhostfs/main.c:627-665 | one packet goes to its registered channel and sets its bit, or changes nothing |
| AsyncChannels.Channels.UsbAsyncRegister | usbhostfs/main.c:667-715 | the requested or first free channel is taken and reset, or the call is refused |
| AsyncChannels.Channels.UsbAsyncUnregister | usbhostfs/main.c:717-738 | an open channel is given up, any other call refused |
| AsyncChannels.Channels.ReadCritical | usbhostfs/main.c:760-773 | the critical section takes what is there and re-arms the bit when bytes remain |
| AsyncChannels.Channels.UsbAsyncFlush | usbhostfs/main.c:780-795 | the ring and its bit are cleared |
| Kprintf.ApplyKeeps | tools/kprintf/main.c:32-68 | each step of producer or consumer conserves the text: waiting plus accepted is printed plus still waiting |
| Kprintf.RunConserves | tools/kprintf/main.c:92-130 | over every interleaving of add_char with snapshot, print and commit nothing is lost, repeated, reordered or overwritten |
| Kprintf.PrintedIsAccepted | tools/kprintf/main.c:92-130 | from start-up the printed text is a prefix of the accepted one, and between drains what is missing from it is what the ring holds |
| Kprintf.SnapshotTakesAll | tools/kprintf/main.c:103-114 | a snapshot takes the whole ring |
| Kprintf.DrainPrintsSnapshot | tools/kprintf/main.c:92-130 | from a snapshot to its commit, under every interleaving, exactly what the ring held at the snapshot is printed, and exactly what was accepted since is left |
| Kprintf.EndOfStringIsDue | tools/kprintf/main.c:62-67 | the end of a string, and a character that fills the ring or finds it full, call for a drain and lose nothing |
| Kprintf.QuietHasPrinted | tools/kprintf/main.c:62-130 | over every run, once a drain is called for and the driver has come to rest, everything that waited then is printed |
| Kprintf.ComesToRest | tools/kprintf/main.c:92-130 | left alone, each step leaves less to do and one is possible until the driver is at rest |
| Kprintf.TextIsPrintable | tools/kprintf/main.c:54-60 | of the 16-bit codes exactly LF, CR and the bytes from 32 on are text |
| Kprintf.DroppedOnlyWhenFull | tools/kprintf/main.c:37-67 | over every run, a printable character is dropped exactly when 4096 accepted ones have not been given back, and then a drain is on its way |
| Kprintf.NextIsOldest | tools/kprintf/main.c:103-123 | the two pieces handed to printf run through the queued characters in order |
| Kprintf.Driver.PutCharDebug | tools/kprintf/main.c:50-68 | the code filter, the ring and the signal together are the producer's step |
| Kprintf.Driver.TakeSnapshot | tools/kprintf/main.c:103-114 | the first critical section is the snapshot step, which takes the whole ring as two pieces |
| Kprintf.Driver.CommitSnapshot | tools/kprintf/main.c:125-129 | the second critical section gives exactly the snapshotted cells back |
| Tty.RunConserves | psplink/tty.c:82-114 | over every interleaving, bytes read plus bytes buffered are the bytes accepted, in order |
| Tty.CheckTakes | psplink/tty.c:90-103 | a positive request is given the oldest min(request, size) bytes as soon as there is one; any other attempt takes nothing |
| Tty.NoLostWakeupExactly | psplink/tty.c:88-111 | a sleeping reader is the registered one and has nothing to read, over all runs, if and only if reads ask for at least one byte |
| Tty.ReadersNeverStarve | psplink/tty.c:136-156 | with any mix of positive requests no wakeup is lost |
| Tty.Stdin.AddInputData | psplink/tty.c:136-156 | as much input as fits is queued and the registered reader woken once |
| Tty.Stdin.CheckInput | psplink/tty.c:90-103 | the critical section of the reader takes what is there or registers it |
| Overlay.RestoreInAnyOrder | psplink/debug.c:298-312 | a layer of patches on distinct cells can be taken away in any order |
| Overlay.RestoreAllUndoes | gdbcommon/gdb-stub.c:848-859 | writing every saved word back gives the table below |
| Overlay.PlantKeeps | psplink/debug.c:271-296 | a new patch on a free cell keeps the layer removable |
| Overlay.RetireKeeps | psplink/debug.c:298-312 | writing one saved word back keeps the rest of the layer |
| Overlay.LayeredUndoes | psplink/debug.c:348-377 | removing the upper layer and then the lower gives the program back |
| Overlay.LowerUpdate | psplink/debug.c:271-312 | the lower layer may change at a cell the upper one leaves alone |
| Overlay.WrongOrderExactly | psplink/debug.c:357-377 | the other order gives the program back exactly if no cell carries both layers, but where the program has the planted word itself |
| Mips.DecodeBranch | psplink/debug.c:80-190 | the nested switch computes the target and the flags the planner's classification calls for |
| Mips.ImmediateReadsBack | psplink/debug.c:88-110 | the opcode, the registers and the signed 16-bit offset of every assembled immediate instruction are the ones read from its word |
| Mips.JumpReadsBack | psplink/debug.c:135-141 | likewise the opcode and the 26-bit index of a jump |
| Mips.RegisterReadsBack | psplink/debug.c:146-158 | likewise the registers and the function of a register instruction |
| Mips.BranchIsPlannedForTarget | psplink/debug.c:96-187 | a branch assembled for a target within 128 KiB, backward or forward, is planned for exactly that target and the word behind its delay slot |
| Mips.JumpIsPlannedForTarget | psplink/debug.c:135-145 | a jump assembled for any word of its 256 MiB region is planned for exactly that word |
| Mips.RegisterJumpIsPlanned | psplink/debug.c:146-158 | JR and JALR are planned for what their register holds |
| Mips.CopBranchCases | psplink/debug.c:168-188 | the planner recognises a coprocessor branch exactly when its condition code is 0 |
| Mips.StepCovers | psplink/debug.c:80-222 | for every word, register file and PC outside a delay slot, every address MIPS control flow can reach next is planted |
| Mips.StepCoversExactly | gdbcommon/gdb-stub.c:379-518 | and covering holds for all register files exactly for the recognised words |
| Mips.StepPlantsOnlySuccessors | psplink/debug.c:192-222 | nothing but such an address is planted |
| Mips.SkipPlantsReturnPoint | psplink/debug.c:192-197 | skipping a linking jump plants only the word it returns to |
| Mips.PlantsNeverShareAWord | psplink/debug.c:199-213 | the two plants are never on the same physical word |
| Plants.StepKeeps | psplink/debug.c:192-222 | a step from an idle stepper plants over the memory as it is |
| Plants.PlantsStand | gdbcommon/gdb-stub.c:489-518 | a break stands at every address the step plans |
| Plants.RecoverUndoes | gdbcommon/gdb-stub.c:848-859 | restoring slot 0 and then slot 1 gives that memory back |
| Plants.StepPlants.Step | gdbcommon/gdb-stub.c:489-518 | the array code is the planner's step |
| Plants.StepPlants.RecoverSlots | gdbcommon/gdb-stub.c:848-859 | the array code restores both slots in their fixed order |
| Debugger.RunKeeps | psplink/debug.c:239-312 | over any run of set, delete, step, store and exception (no step while one is pending, sets and deletes not on a planted word) the two layers stay on the program |
| Debugger.RunRestoresProgram | psplink/debug.c:348-377 | from a fresh debugger, undoing active plants and then active breakpoints gives exactly the program memory |
| Debugger.BreakpointsGoInAnyOrder | psplink/debug.c:298-312 | with no step pending, the breakpoints can be undone in any order |
| Debugger.SetBpTakesEffect | psplink/debug.c:271-296 | a set breakpoint is found again through any mirror, stands in memory and leaves every other word and the step plants alone; a second one on the same word or a full table is refused |
| Debugger.SetBpExactly | psplink/debug.c:271-296 | a set breakpoint keeps both layers exactly if no plant of a pending step is on the word, but for a program that has a break of its own there |
| Debugger.DeleteBpKeeps | psplink/debug.c:298-312 | deleting keeps both layers, also while a step is pending that has no plant on the word |
| Debugger.DeleteBpExactly | psplink/debug.c:298-312 | and exactly then, but for a program that has a break of its own there |
| Debugger.DeleteBpTakesEffect | psplink/debug.c:298-312 | a removed breakpoint is gone from its word, which is the program's again; every other word and the step plants stay |
| Debugger.HandleExceptionKeeps | psplink/debug.c:348-398 | every exception keeps both layers, and one on a plant leaves no plant |
| Debugger.StepComesBack | psplink/debug.c:224-237 | wherever the program goes after a step, also from a word with a breakpoint, a break is in its way, and its exception gives back the memory and breakpoints from before the step, but for a breakpoint hit there |
| Debugger.BreakIsStepped | psplink/debug.c:80-95 | on a breakpoint the planner reads the break itself, and the program traps on it again |
| Debugger.NoPlantsAfterExactly | psplink/debug.c:348-377 | after an exception no step is pending exactly if the exception was one of ours or none was pending before |
| Debugger.PlantsStayBehind | psplink/debug.c:357-370 | a concrete step and unrelated exception leave a break in the program |
| Debugger.Debugger.FindBp | psplink/debug.c:239-255 | the first active breakpoint on the word, modulo the top nibble |
| Debugger.Debugger.SetBP | psplink/debug.c:271-296 | the array code is the set operation |
| Debugger.Debugger.DeleteBP | psplink/debug.c:298-312 | the array code is the delete operation |
| Debugger.Debugger.Handle | psplink/debug.c:348-398 | the array code is the exception step |
| GdbStub.PutThenGet | gdbcommon/gdb-stub.c:958-996 | a byte written is the byte read, and every other address reads as before |
| GdbStub.WordIsItsBytes | gdbcommon/gdb-stub.c:263-279 | the four bytes at an aligned address, lowest first, are the word |
| GdbStub.ServeIsPlain | gdbcommon/gdb-stub.c:848-1006 | below whatever the last packet plants, the command loop, register writes included, replies, writes and resumes as on a memory without plants |
| GdbStub.StepPlants | gdbcommon/gdb-stub.c:998-1006 | an s packet resumes at its address or where the program stopped, with a break at every planned address (for SYSCALL at $ra) and so wherever control goes next, and the next trap gives the memory back |
| GdbStub.ContinuePlantsNothing | gdbcommon/gdb-stub.c:892-921 | a c packet plants nothing and resumes at its address, unless it only starts the module |
| GdbStub.ServesBoth | gdbcommon/gdb-stub.c:862-1006 | the packet that resumes is served on the memory and the registers the ones before it leave |
| GdbStub.StepComesBack | gdbcommon/gdb-stub.c:848-1006 | behind any other packets of a session, an s packet plants from the memory and the registers they leave, and the next trap finds that memory again |
| GdbStub.RunIsPlain | gdbcommon/gdb-stub.c:848-1006 | over any run of traps, commands and program stores the stub's memory below the plants is the plain debugger's |
| GdbStub.CommandLoopSeesNoPlants | gdbcommon/gdb-stub.c:848-859 | whenever the command loop runs no plant is active and memory is the program's plus the debugger's own writes |
| GdbStub.QuietLoop | gdbcommon/gdb-stub.c:862-1006 | commands up to the first s or c leave the stepper idle |
| GdbStub.GdbHandleException | gdbcommon/gdb-stub.c:821-1006 | recovering and serving on the arrays, the c packet of a module not yet started included, computes the replies, the registers resumed with and the memory of the specification |
| GdbPacket.OneFrame | gdbcommon/gdb-stub.c:139-224 | behind any junk one frame is accepted or answered with '-', by its checksum |
| GdbPacket.Resynchronises | gdbcommon/gdb-stub.c:139-224 | after any junk and bad frames the first good payload is returned with one '-' per bad frame and one '+', exactly unless a ':' stands at index 2 |
| GdbPacket.OverflowIsAcceptedExactly | gdbcommon/gdb-stub.c:161-221 | a frame too long for the buffer is accepted exactly when its bytes sum to the value of two missing digits |
| GdbPacket.GoodFrame | gdbcommon/gdb-stub.c:78-120 | a frame built by the sender arrives as it was sent, leaving what follows |
| GdbPacket.TransmissionDecodes | gdbcommon/gdb-stub.c:78-120 | every transmission of putpacket begins with a frame that getpacket decodes to the payload |
| GdbPacket.GetPacketFrom | gdbcommon/gdb-stub.c:139-224 | the loops on the link and the buffer compute the outcome of the specification, emitted bytes included |
| GdbPacket.CheckFrame | gdbcommon/gdb-stub.c:186-219 | the checksum digits decide between '-' and '+', and a sequence id is sent back and removed |
| GdbPacket.CopiesFitExactly | gdbcommon/gdb-stub.c:80-105 | k copies fit the output buffer exactly while k times the frame's length does |
| GdbPacket.PutPacketTo | gdbcommon/gdb-stub.c:78-120 | attempt k sends k copies until a '+' comes or the link ends, for exactly the replies under which the buffer holds them |
| GdbPacket.AppendFrame | gdbcommon/gdb-stub.c:84-109 | the frame is '$', payload, '#' and the two digits of the sum |
| GdbPacket.SumIsTotal | gdbcommon/gdb-stub.c:84-109 | the checksum is the sum of the bytes modulo 256 |
| GdbPacket.HexIsDigitValue | gdbcommon/gdb-stub.c:125-134 | exactly the hexadecimal digits of either case have a value, and it is theirs |
| GdbMemory.ToHexReadsBack | gdbcommon/gdb-stub.c:305-324 | reading the hexadecimal text of a number gives the number |
| GdbMemory.FlipTogglesOneBit | gdbcommon/gdb-stub.c:282-303 | an escaped byte differs from the one meant in bit 5 and in no other |
| GdbMemory.WritesData | gdbcommon/gdb-stub.c:282-303 | decoding the encoded data, hex or escaped binary, stores exactly the data at the address |
| GdbMemory.ReadsData | gdbcommon/gdb-stub.c:263-279 | mem2hex of readable memory is the hex of its bytes |
| GdbMemory.WriteTextFrames | gdbcommon/gdb-stub.c:958-996 | an escaped packet holds no '#', and no ':' where a sequence id has one |
| GdbMemory.WriteEndToEnd | gdbcommon/gdb-stub.c:958-996 | X and M end to end: sent behind any junk, exactly the data is in memory, nothing else changed, one '+' and OK |
| GdbMemory.WriteThenRead | gdbcommon/gdb-stub.c:958-996 | a write read back by m gives the data, exactly if its digits and a NUL fit the reply buffer |
| GdbMemory.ReadOverrunsExactly | gdbcommon/gdb-stub.c:958-972 | an m packet runs over the reply buffer exactly for 1024 readable bytes or more, or more than 1024 before the window ends |
| GdbMemory.HexWritesFitReplies | gdbcommon/gdb-stub.c:981-996 | what an M packet can write always fits the reply |
| GdbMemory.BinaryWriteOutgrowsReply | gdbcommon/gdb-stub.c:974-996 | an X packet of 1024 zeros is accepted and its read-back overruns |
| GdbMemory.WriteThenReadRegisters | gdbcommon/gdb-stub.c:929-957 | G then g returns what was sent |
| GdbMemory.ReadThenWriteRegisters | gdbcommon/gdb-stub.c:929-957 | g then G changes nothing |
| GdbMemory.HexToIntFrom | gdbcommon/gdb-stub.c:305-324 | the loop computes the number and stops behind its digits |
| GdbMemory.Hex2MemFrom | gdbcommon/gdb-stub.c:282-303 | the loop stores the decoded bytes up to the first byte outside the window |
| GdbMemory.Mem2HexTo | gdbcommon/gdb-stub.c:263-279 | the loop appends two digits per byte and a NUL, and reports exactly the ranges that run over the buffer |
| GdbSession.WritePacketIsCommands | gdbcommon/gdb-stub.c:974-996 | any M or X packet writes through the command loop on the program's memory what it writes in the window |
| GdbSession.ReadPacketIsCommands | gdbcommon/gdb-stub.c:958-972 | the data of an m reply are the bytes the command loop reads |
| GdbSession.WritesStayInside | gdbcommon/gdb-stub.c:282-303 | no byte outside the window changes |
| GdbSession.RegistersArrive | gdbcommon/gdb-stub.c:939-956 | G sets exactly the registers a later step plans with and the address a later s or c resumes at |
| GdbSession.RegistersInOrder | gdbcommon/gdb-stub.c:939-956 | the first 32 words of a G packet are the general registers and the 38th, behind status, lo, hi, badvaddr and cause, is epc |
| GdbSession.ResumePackets | gdbcommon/gdb-stub.c:892-1006 | "s" and "c" step and continue, at the address in hexadecimal behind them or where the program stopped |
| GdbSession.WriteReachesProgram | gdbcommon/gdb-stub.c:821-996 | from the wire to the program: behind any junk and past any step plants, exactly the data is in the memory below |
| NormalizePath.NormalIsIdempotent | psplink/util.c:132-189 | normalising twice changes nothing more |
| NormalizePath.ReducePlain | psplink/util.c:148-183 | no ".", ".." or empty segment is left |
| NormalizePath.DotDotCancels | psplink/util.c:148-183 | behind any front of whole segments, "name/../" comes to nothing |
| NormalizePath.DotDotAtDevice | psplink/util.c:160-176 | "../" behind the device comes to nothing |
| NormalizePath.DotGoes | psplink/util.c:148-160 | "./" and a doubled slash come to nothing anywhere |
| NormalizePath.PlainPathStays | psplink/util.c:132-189 | a path without such segments stays as it is |
| NormalizePath.DoSegment | psplink/util.c:148-183 | one turn pushes the segment on the stack, or cuts it and for ".." the segment before it, clamped at the device |
| NormalizePath.NormalizePath | psplink/util.c:132-189 | in place, the C string becomes the device, the reduced segments and the text behind the last slash; paths that start with a slash are refused |
| CStrings.StrChr | psplink/util.c:145-184 | the first occurrence behind a position |
| PathMap.GenComponents | usbhostfs_pc/main.c:307-357 | the components of the result are the folded ones, fewer than 256, and fold to themselves |
| PathMap.GenIsIdempotent | usbhostfs_pc/main.c:307-357 | a second pass changes only whether the path ends like a directory |
| PathMap.GenFoldsAll | usbhostfs_pc/main.c:317-343 | up to 255 components the fold sees the whole path |
| PathMap.GenDropsTheRest | usbhostfs_pc/main.c:317-321 | what stands behind the 255th component is dropped |
| PathMap.GenSeesAllExactly | usbhostfs_pc/main.c:317-321 | a path of plain names keeps its components exactly if they are at most 255 |
| PathMap.DroppedNameIsLost | usbhostfs_pc/main.c:317-321 | with a name behind the 255th component the fold of the whole path differs |
| PathMap.GenFits | usbhostfs_pc/main.c:345-354 | any path grows at most by a missing first slash and a directory's missing last one |
| PathMap.NameGrows | usbhostfs_pc/main.c:345-354 | and a single name grows by both |
| PathMap.OverrunsOnlyAtTheEnd | usbhostfs_pc/main.c:497-524 | a path that passes the length test and outgrows the buffer ends in its last two places |
| PathMap.LongDirectoryOverruns | usbhostfs_pc/main.c:497-524 | a directory of 4094 characters does |
| PathMap.BestIsBest | usbhostfs_pc/main.c:377-432 | find_nocase finds an entry if any agrees ignoring case, one with the most equal characters |
| PathMap.ExactNameWins | usbhostfs_pc/main.c:359-375 | a name that is there is never replaced by another spelling |
| PathMap.MatchedIsAlike | usbhostfs_pc/main.c:435-476 | matching keeps the number of components and, but for case, the components; none becomes "." or ".." |
| PathMap.LookupExactly | usbhostfs_pc/main.c:377-432 | a lookup fails exactly if the directory lists no spelling of the name, and gives the name itself if that is listed |
| PathMap.NoCaseIsOnDisk | usbhostfs_pc/main.c:435-476 | the matched path spells every component as its directory lists it, only a missing last one stays; it is the path itself only where a directory on the way lists no spelling |
| PathMap.OnDiskStays | usbhostfs_pc/main.c:435-476 | a path that is on disk as it is spelled is not changed |
| PathMap.NoCaseKeepsShape | usbhostfs_pc/main.c:435-476 | the matched path has the length and the ending of the path |
| PathMap.PathStaysBelowRoot | usbhostfs_pc/main.c:478-549 | the host path's components are the folded root's and then the folded current directory's and path's, up to 255: no path leads out of the root |
| PathMap.ShortPathsAreMapped | usbhostfs_pc/main.c:478-549 | a drive and a path that leave room for two slashes are always mapped |
| PathMap.SplitTokens | usbhostfs_pc/main.c:316-322 | the token loop collects the first 255 components |
| PathMap.Fold | usbhostfs_pc/main.c:324-343 | the second loop computes the fold |
| PathMap.GenPath | usbhostfs_pc/main.c:307-357 | the path is rewritten to its normal form, and the texts whose normal form outgrows the buffer are reported exactly |
| PathMap.FindNoCase | usbhostfs_pc/main.c:377-432 | the directory scan finds the best entry, with the length limit of its buffer |
| PathMap.MakeNoCase | usbhostfs_pc/main.c:435-476 | the path is replaced by what is on disk, or left as is when a component before the last is missing |
| PathMap.MakePathInto | usbhostfs_pc/main.c:478-549 | 0 and the mapped path, or -1 for a drive of 8 or more and for lengths the buffers cannot hold; the calls that run over a buffer are reported exactly |
| Evaluator.DoOp | psplink/decodeaddr.c:79-138 | the complements are applied to the right operand, then the operator to both |
| Evaluator.ArithmeticMeans | psplink/decodeaddr.c:91-94 | sums wrap at 2^32 and subtraction takes an addition back |
| Evaluator.ProductsMean | psplink/decodeaddr.c:121-131 | a product is right modulo 2^32, a quotient the largest that fits |
| Evaluator.BitsMean | psplink/decodeaddr.c:84-100 | and, or, exclusive or and complement act on each bit |
| Evaluator.ShiftsMean | psplink/decodeaddr.c:101-104 | the shifts move every bit by the number of places |
| Evaluator.ComparisonsMean | psplink/decodeaddr.c:109-120 | the comparisons answer 0 or 1; equality is a difference of 0, a word is below another exactly if dividing by it gives 0, and exactly one of below, equal and above holds |
| Evaluator.TruthsMean | psplink/decodeaddr.c:105-134 | the logical "and" and "or" are those of C, division by zero gives 1 and a first operand is itself |
| Evaluator.NumbersMeanThemselves | psplink/decodeaddr.c:498-510 | every 32-bit number has a 0x-text that means it |
| Evaluator.OtherBases | psplink/decodeaddr.c:498-510 | decimal and octal texts of any number are read as it, saturated at 2^32 - 1, up to what stands behind them |
| Evaluator.ReadsName | psplink/decodeaddr.c:379-455 | a name between two marks is looked up, and what stands behind it is left |
| Evaluator.NamesMean | psplink/decodeaddr.c:379-455 | '@' marks a module, '%' a thread and '?' a symbol or, with a backquote, its size; address 0 is no symbol |
| Evaluator.DerefAddr | psplink/decodeaddr.c:140-163 | the word behind n dereferences, or failure at the first unaligned or unreadable address |
| Evaluator.ReadsTree | psplink/decodeaddr.c:328-631 | a printed tree is read as its meaning, whatever stands behind it |
| Evaluator.DecodesPrinted | psplink/decodeaddr.c:633-641 | memDecode of a printed tree gives the tree's 32-bit meaning or fails where it has none |
| Evaluator.MeaningExactly | psplink/decodeaddr.c:140-163 | a tree has a meaning exactly when its registers are known and its dereferences meet readable words |
| Evaluator.ScanTree | psplink/decodeaddr.c:456-489 | the bracket scan passes a printed tree at the depth it came with |
| Evaluator.FindsGroup | psplink/decodeaddr.c:456-496 | the scan from an opening bracket ends at the bracket that matches it |
| Evaluator.WrittenOrderEverywhereExactly | psplink/decodeaddr.c:344-355 | the parser and the written order of '*' and '~' agree for every value in every environment exactly when no '*' has an odd number of '~' behind it |
| Evaluator.MeaningIsWritten | psplink/decodeaddr.c:328-631 | a tree all of whose operands are such means what is written |
| Evaluator.DecodesAsWritten | psplink/decodeaddr.c:633-641 | and memDecode of its text gives that |
| Evaluator.WrittenOrderExactly | psplink/decodeaddr.c:344-355 | for a given value they agree exactly then, or where both fail |
| Evaluator.ParserRefusesWrittenOrder | psplink/decodeaddr.c:344-355 | an operand the written order gives a value and the parser refuses |
| Evaluator.ReadAtom | psplink/decodeaddr.c:356-511 | the code for registers, names, groups and numbers returns the atom's value and leaves the rest of the line intact |
| Evaluator.ParseLine | psplink/decodeaddr.c:328-631 | the loop over the NUL-cut line computes the specification's value and writes nothing outside the line |
| Evaluator.MemDecodeLine | psplink/decodeaddr.c:633-641 | the line is cut to 1023 characters and parsed |
| Tokenizer.ReadsEscaped | psplink/parse_args.c:106-194 | escaped text inside quotes is read as the argument |
| Tokenizer.HexEscapeReadsBack | psplink/parse_args.c:20-45 | any character but NUL can be written as \x with its two digits |
| Tokenizer.OctalEscapeReadsBack | psplink/parse_args.c:47-74 | and as \0 with four octal digits |
| Tokenizer.LetterEscapes | psplink/parse_args.c:109-155 | \n and \r are LF and CR, and any other character that begins no number stands for itself |
| Tokenizer.WordsReadBackExactly | psplink/parse_args.c:106-208 | words with a space between them are read back exactly if there are fewer than max_args |
| Tokenizer.RoundTripExactly | psplink/parse_args.c:76-211 | quoting a list and parsing the line gives the list back exactly when it is shorter than max_args and its last argument is not empty |
| Tokenizer.KeepsWhatFits | psplink/parse_args.c:106-208 | a longer list comes back as its first max_args - 1 arguments |
| Tokenizer.ReadEscaped | psplink/parse_args.c:20-74 | one to four octal or one or two hexadecimal digits in one byte; none, or a NUL, is an error |
| Tokenizer.Fill | psplink/parse_args.c:102-194 | the loop lays the arguments out behind each other, argv pointing at them |
| Tokenizer.ParseArgsInto | psplink/parse_args.c:76-211 | the arguments stand in the output within strlen(in) + 1 bytes, and the null pointer behind them stays below max_args |
| HookTable.RunKeeps | psplink/apihook.c:253-402 | over any run of installs and deletes the table is the original with the active hooks written over distinct words, each remembering the original |
| HookTable.DeletingRestores | psplink/apihook.c:253-273 | after any run, deleting the hooks in any order gives the original table back |
| HookTable.InstallExactly | psplink/apihook.c:327-402 | an install succeeds exactly when a hook is idle and an unhooked word of the original table holds the export |
| HookTable.InstallTakesEffect | psplink/apihook.c:327-402 | an install that reports 1 has put the entry of an idle hook over the first word that held the export, and the hook goes on to the export; every other word and hook stays, and an install that reports 0 changes nothing |
| HookTable.DeleteUndoesInstall | psplink/apihook.c:253-273 | deleting a hook just installed gives the table back |
| HookTable.CallsReachTheOriginal | psplink/apihook.c:139-152 | a table word is the original function or the one hook entry that goes on to it |
| HookTable.ApiHooks.FindSyscallAddr | psplink/apihook.c:106-137 | the first word of the table that holds the address |
| HookTable.ApiHooks.FindFreeHook | psplink/apihook.c:290-307 | the first idle hook, or -1 |
| HookTable.ApiHooks.HookGeneric | psplink/apihook.c:327-402 | the array code is the install step |
| HookTable.ApiHooks.GenericDelete | psplink/apihook.c:253-273 | the array code is the delete step |

## Left out

- Kernel and device calls, cache flushes and interrupt masking: critical sections are atomic steps, memory is a table.
- USB errors, timeouts, detach and re-attach, and big-endian builds: one healthy little-endian connection; a transfer that is an exact multiple of the packet size is not followed by an empty packet.
- Structure layouts: names are at most HOSTFS_PATHMAX bytes, control blocks at most 64 KiB, and SceIoDirent (352 bytes) and SceIoStat (88 bytes) have one size on both ends.
- Handlers: the file-system calls of handlers other than READ and WRITE are given as their results; all client sockets of do_async are open.
- The loop's unknown first word (usbhostfs_pc/main.c:2309-2312): it stops the PC in the model, where the code reads on; the runs proved here never meet one.
- RemoteCalls.UsbReadData: the file is nobody else's and stays open; a call has not returned (`done` is false) only while a step is still possible, and a failing read(2) loses the bytes handle_read had gathered, as in the code.
- RemoteCalls.UsbWriteData: likewise; O_APPEND is not modelled, and a signal interrupts only finitely often.
- AsyncChannels: a reader whose channel is unregistered behind its wait goes through a null pointer; its read does not happen in the model. An endpoint serves one channel.
- Kprintf: character codes fit 16 bits, as the kernel hands them over.
- Tty: one reader, and wakeups are counted, as the kernel does.
- Debugger: a step is not begun while one is pending, and a breakpoint not set or deleted on a word a pending step has planted; the program does not overwrite planted words; ERET, DERET and words in a delay slot are not stepped.
- GdbStub: set_swbp has no caller; detach, queries and hardware breakpoints are not modelled; a write outside the window counts as a packet that only replies, and starting the module is one step.
- GdbPacket.PutPacketTo: what happens behind the end of the output buffer; the method reports it and promises nothing more.
- GdbMemory: reads past the end of the packet buffer give 0; the saved context of g and G lies in the writable window; what happens behind the end of the reply buffer.
- PathMap.GenPath: what happens behind the end of the buffer.
- PathMap.MakePathInto: likewise; a mutex that cannot be locked.
- PathMap.StrTok: strtok's NULs inside its private copy are not modelled; the tokens are values.
- Evaluator.DoOp: C leaves a shift of 32 or more open; the model takes the low five bits of the count, as SLLV and SRLV do.
- Evaluator.ReadAtom: module, thread and symbol lookups are parameters; strtoul saturates and reads "0x" without digits as 0, as the C standard has it.
- Tokenizer.ParseArgsInto: input, output and argv do not overlap.
- HookTable: names, parameter formats and sleep flags are only printed; apiHookByName and apiHookByNid, which keep no record, are left out; entries are distinct, not in the table and never exports.
- shell.c, conshell, pcterm, the disassembler's text, symbol files, module loading, option handling and the remote joystick: user interface or shallow tables.
- Floating-point text, bitmaps and the buffered file reader fdgetc, which never refills after its first block.
- memcmp_mask and memmem_mask: plain byte comparisons under a mask, without state.
