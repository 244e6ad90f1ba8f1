# A verified model of the AESD character device and its socket server

The AESD device keeps the last ten newline-terminated commands written to it in a ring of ten
slots, plus one partial command that has not seen its newline yet. Readers see the ten commands
joined end to end, oldest first. The socket server frames what its clients send into packets,
appends each packet to the device with one write, and echoes the device's contents back.

This project models three parts of that system in Dafny and proves what they keep over whole runs.

* The device: the ring (`CircularBuffer.dfy`), the driver operations (`CharDevice.dfy`) and the
  kernel services they call (`KernelMemory.dfy`). Two orders coexist in the driver: lookups walk the
  slots from the oldest one, while sizes, seeks and unloading walk them in raw slot order.
  `RingSpec.dfy` gives the ring in closed form and relates the two orders; `DeviceSpec.dfy` is the
  device as a state machine over whole operations, and the `Device` class is proved to refine it,
  operation by operation and for every run (`Device.Execute`). `DeviceRuns.dfy` holds the theorems
  about runs, `Ownership.dfy` those about allocations.
* The connection handler: framing (`PacketFraming.dfy`), the receive buffer (`PacketBuffer.dfy`), what
  happens to the shared device while a connection is served (`ConnectionRuns.dfy`) and the receive and
  echo loops themselves (`ConnectionHandler.dfy`). Other threads' device operations are interleaved
  wherever a handler does not hold the device lock, and the run of the device is stated exactly: the
  operations the input gives the other threads, and those the handler adds (`InputTrace`). How far a
  connection gets is exact too: the device at its start and the input settle it (`ConnectionIsSettled`).
* The linked structures: tail queues (`TailQueue.dfy`), singly linked tail queues
  (`SinglyTailQueue.dfy`) and the singly linked registry of connections with its reaper
  (`ConnectionRegistry.dfy`). An address of a link field is a value, `FirstOf(head)` or
  `NextOf(element)`, so the pointer-to-pointer fields and the head/entry layout pun are modelled as
  they are. `Sequences.dfy` holds what the three share.

Every device operation runs under the device lock, so a run is a list of operations of any number of
open files. What the environment decides is an input: whether the lock wait is interrupted, whether an
allocation succeeds, whether a user copy faults, what `recv()` returns, how many bytes `send()`
takes, whether a thread has set its `done` flag. Kernel memory is a map from live addresses to bytes;
reading, growing or freeing an address that is not live breaks a precondition, so the proofs of the
driver are also proofs that it never uses or frees a dead buffer. An address may be reused after it
has been freed. One char stands for one byte.

## Where the code and its documentation differ

The model follows the code; each difference is stated exactly.

* `aesd_ioctl` takes `write_cmd` as a raw slot, while `aesd_ioctl.h` describes a zero-referenced write
  command. `SeekIsFaithfulIff`: every seek does what is documented (accepted exactly when that command
  is held and has that byte, and then going to it) if and only if fewer than ten commands were completed
  or the command sizes read in slot order equal those read oldest first. `SeekThenRead` covers the case
  of the oldest command in slot 0, `SeekTargetRotated` gives the position at every other rotation.
  `SeekCanMiss` is a run of eleven writes after which a seek goes to the wrong byte, `SeekCanRefuse` one
  after which a seek to an existing byte is refused.
* A write that completes a command returns the size of the whole command. `WriteOverReports`: this
  exceeds the count passed in if and only if an earlier write began the command; `WriteCanOverReport` is
  a run of two one-byte writes whose second returns 2.
* Unloading frees the ring's buffers only. `LoadRunUnload`: over the module's whole life, a buffer stays
  allocated if and only if a partial command is left over; `UnloadCanLeak` is a run that ends so.
* The comment in the handler speaks of the full file contents, but the descriptor is never rewound.
  `WriteToClient` and `DrainGivesAllIff`: an echo that gets to the end sends what follows the
  descriptor's position, including what other threads add meanwhile if nothing is evicted; while no
  command is completed this is all of the contents if and only if it stood at 0 or there were none;
  `SecondDrainCanBeEmpty` is a run whose second echo repeats nothing. It is the echoes of a connection
  joined together that give the contents, as long as nothing is evicted since the first of them
  (`EchoIsWholeContents`). Once the ring is full, a packet that evicts e bytes is echoed to a descriptor
  at the end without its first e bytes, or not at all if it is shorter (`DrainSkipsEvicted`,
  `DrainAfterPacket`; `EleventhPacketCanBeSkipped` is a run of eleven packets whose last is not echoed).
* `write_to_client` treats a failed read like the end of the file and returns 0. `WriteToClient`: it
  stops at the first read, early or late, that brings nothing, and with bytes still to come it returns 0
  if and only if that read met an interrupted lock wait or a copy fault. `EchoCanFailSilently` is a run on a device that holds a packet: the echo sends nothing and
  returns 0, and the next one sends the packet.

## Model

| member | source | states |
|---|---|---|
| `ByteStreams.LocateIsAt` | aesd-char-driver/aesd-circular-buffer.c:22-28 | a character index is found exactly when it is below the total, and then at the entry and byte where the concatenation has it |
| `ByteStreams.FlatSlice` | aesd-char-driver/aesd-circular-buffer.c:22-28 | the bytes of an entry lie in the concatenation at the sum of the sizes before it |
| `RingSpec.OffsetsAdvance` | aesd-char-driver/aesd-circular-buffer.c:61-71 | how one addition moves the two offsets, and that they meet for the first time after the tenth |
| `RingSpec.WalkAdvances` | aesd-char-driver/aesd-circular-buffer.c:44-45 | the loop condition of the search ends the walk exactly after the held entries, and after ten slots when the ring is empty |
| `RingSpec.SlotsAppend` | aesd-char-driver/aesd-circular-buffer.c:66-67 | for every history, an addition changes the one slot its number selects and makes it the latest of its class |
| `RingSpec.VisibleAppend` | aesd-char-driver/aesd-circular-buffer.c:49-57 | the held entries after an addition are the old ones with the new one appended and, if ten were held, the oldest dropped |
| `RingSpec.SlotInLogicalOrder` | aesd-char-driver/aesd-circular-buffer.c:35-45 | walking from the oldest slot modulo ten visits the held entries oldest first |
| `RingSpec.SlotsRotation` | aesd-char-driver/aesd-circular-buffer.h:74-77 | raw slot order is age order rotated, or padded with blanks while the ring is not full |
| `RingSpec.RotationInvariance` | aesd-char-driver/main.c:116-126 | in every state the raw-order sum of sizes is the length of the concatenation in age order |
| `CircularBuffers.CircularBuffer.constructor` | aesd-char-driver/aesd-circular-buffer.c:78-84 | an empty ring in closed form |
| `CircularBuffers.CircularBuffer.AddEntry` | aesd-char-driver/aesd-circular-buffer.c:58-73 | keeps the closed form for the history extended by the entry, and returns the oldest buffer if and only if the ring was full |
| `CircularBuffers.CircularBuffer.FindEntryOffsetForFpos` | aesd-char-driver/aesd-circular-buffer.c:30-47 | finds the entry and byte of flat indexing, nothing exactly at or beyond the total, with the exact number of loop bodies, at most ten |
| `CircularBuffers.CircularBuffer.Size` | aesd-char-driver/main.c:116-126 | the sum of the sizes in raw slot order |
| `CircularBuffers.CircularBuffer.OffsetOfSlot` | aesd-char-driver/main.c:92-104 | the raw-order prefix sum before a slot, plus the offset |
| `KernelMemory.Kzalloc` | aesd-char-driver/main.c:196-202 | a new allocation at an address that is not live, or NULL and nothing changed |
| `KernelMemory.Krealloc` | aesd-char-driver/main.c:216-224 | the allocation grown in place or moved with its bytes in front, or NULL and nothing changed |
| `KernelMemory.Kfree` | aesd-char-driver/main.c:247-251 | removes one live allocation; freeing anything else is excluded |
| `KernelMemory.CopyFromUser` | aesd-char-driver/main.c:203-211 | writes inside one live allocation only, all of it or a fault |
| `KernelMemory.AllocAndCopy` | aesd-char-driver/main.c:194-213 | the first chunk of a command: a new allocation holding the chunk, or memory exactly as before |
| `KernelMemory.GrowAndCopy` | aesd-char-driver/main.c:214-235 | a further chunk: one allocation holding old bytes and chunk, unchanged memory on allocation failure, the command's memory gone on a copy fault |
| `KernelMemory.CopyToUser` | aesd-char-driver/main.c:168-173 | delivers exactly the bytes asked for, inside a live buffer, or nothing |
| `Ownership.DropKeepsOwnership` | aesd-char-driver/main.c:246-251 | freeing the oldest entry's buffer leaves every other live buffer with its one owner |
| `Ownership.HandOverKeepsOwnership` | aesd-char-driver/main.c:241-253 | handing the partial command to the ring moves its buffer's ownership to the newest entry |
| `Ownership.CommitKeepsOwnership` | aesd-char-driver/main.c:241-253 | the whole commit, eviction included, keeps exactly one owner per live buffer, and the evicted buffer is live until freed |
| `Ownership.ReplaceKeepsOwnership` | aesd-char-driver/main.c:194-235 | moving, growing or dropping the partial command's buffer keeps ownership exact |
| `Ownership.LiveAllocations` | aesd-char-driver/aesdchar.h:35-40 | as many allocations are live as there are held entries and partial commands |
| `Ownership.SlotOwns` | aesd-char-driver/main.c:77-90 | in raw order a slot is null exactly when never written, and otherwise owns the bytes of its command |
| `Ownership.SlotsAreDistinct` | aesd-char-driver/main.c:332-338 | no slot holds a buffer that an earlier slot holds, so the unloading loop frees none twice |
| `Ownership.SlotsOwnTheRest` | aesd-char-driver/main.c:332-338 | what no slot owns is the partial command's buffer and nothing else |
| `DeviceSpec.FixedSizeLlseek` | aesd-char-driver/main.c:137-137 | the new position lies in the range of the contents and the offset away from the start, the position or the end, as asked; it is granted whenever that is in range, and asking for the current position always; anything else is EINVAL |
| `CharDevice.WriteInHalves` | aesd-char-driver/main.c:181-263 | gathering and then sealing is the whole write, for every outcome, return value and position included (`DeviceRuns.WriteReturns` says what they are) |
| `CharDevice.Mutex.LockInterruptible` | aesd-char-driver/main.c:190-193 | takes a free lock unless interrupted |
| `CharDevice.Mutex.Unlock` | aesd-char-driver/main.c:260-262 | releases a held lock only |
| `CharDevice.Device.constructor` | aesd-char-driver/main.c:303-309 | the device starts empty, unlocked and owning nothing |
| `CharDevice.Device.GatherFirst` | aesd-char-driver/main.c:194-213 | the partial command becomes the chunk; failures leave it absent |
| `CharDevice.Device.GatherMore` | aesd-char-driver/main.c:214-235 | the chunk is appended to the partial command; an allocation failure changes nothing, a copy fault drops the partial command and only that |
| `CharDevice.Device.Commit` | aesd-char-driver/main.c:241-253 | the partial command becomes the newest command and exactly the evicted buffer is freed |
| `CharDevice.Device.CommitIfComplete` | aesd-char-driver/main.c:237-258 | commits if and only if the gathered bytes hold a newline, and returns what the driver returns: the size of the command, or the count given |
| `CharDevice.Device.Write` | aesd-char-driver/main.c:181-263 | refines the write step in state, position and result (`DeviceRuns.WriteReturns`, `DeviceRuns.FailuresAreExact`), and holds the lock, taken and released once, while it works, unless interrupted |
| `CharDevice.Device.Lookup` | aesd-char-driver/main.c:156-167 | the entry found is live and holds the command at the flat position |
| `CharDevice.Device.Fetch` | aesd-char-driver/main.c:156-175 | the bytes delivered are the specified ones, read from live memory only |
| `CharDevice.Device.Read` | aesd-char-driver/main.c:143-179 | refines the read step in state and result, and holds the lock, taken and released once, while it works, unless interrupted |
| `CharDevice.Device.SeekOffset` | aesd-char-driver/main.c:70-104 | the target of a seek, or a refusal exactly for a slot out of range, unused, or shorter than the offset |
| `CharDevice.Device.Ioctl` | aesd-char-driver/main.c:45-114 | refines the seek step, a refusal leaving the position alone (`DeviceRuns.FailuresAreExact`), with the lock untouched on every early return and held until released once otherwise |
| `CharDevice.Device.TotalSize` | aesd-char-driver/main.c:116-126 | the raw-order sum is the length of what a reader can see |
| `CharDevice.Device.Llseek` | aesd-char-driver/main.c:128-141 | refines the seek step over the contents' length (`DeviceRuns.LlseekLands`), under the lock |
| `CharDevice.Device.Perform` | aesd-char-driver/main.c:265-273 | each file operation refines its step |
| `CharDevice.Device.Execute` | aesd-char-driver/main.c:265-273 | every run of any operations on any open files refines the run of the state machine, results included |
| `CharDevice.Device.ClosedForm` | aesd-char-driver/aesd-circular-buffer.c:58-84 | after N commands: offsets, full flag and the content of each slot as functions of N and the commands |
| `CharDevice.Device.LiveCount` | aesd-char-driver/main.c:194-254 | at most eleven buffers are live: one per held command and one for a partial command |
| `CharDevice.Device.Cleanup` | aesd-char-driver/main.c:332-338 | frees each ring buffer once and leaves live exactly a partial command's buffer, if there is one |
| `CharDevice.LoadRunUnload` | aesd-char-driver/main.c:303-339 | for every run of operations between loading and unloading: as many buffers are freed as commands are held, and one is leaked if and only if a partial command is left over |
| `CharDevice.UnloadCanLeak` | aesd-char-driver/main.c:332-338 | a run of one write after which a partial command is left over |
| `DeviceRuns.OutcomeIsFlat` | aesd-char-driver/main.c:156-175 | a read returns the concatenation from its position, at most to a command's end, and nothing exactly at the end |
| `DeviceRuns.ReadIsFlat` | aesd-char-driver/main.c:143-179 | the same of a device step, which moves the position by what it delivers |
| `DeviceRuns.ReadAt` | aesd-char-driver/main.c:157-175 | the exact bytes of a read: from its place in the command that holds the position, as many as asked for or to the end of that command |
| `DeviceRuns.ReadIsFromStream` | aesd-char-driver/main.c:143-179 | a read at `f_pos` returns the stream of all committed bytes from evicted bytes plus `f_pos` |
| `DeviceRuns.ReadDeliversStream` | aesd-char-driver/main.c:143-179 | what a read delivered is that piece of the committed stream as it stands at the end of any longer run |
| `DeviceRuns.ReaderNeverRepeatsOrReorders` | aesd-char-driver/main.c:143-263 | for every interleaving, a file that only reads gets strictly increasing stream positions and misses between two reads exactly what was evicted between them |
| `DeviceRuns.ReadsJoinUp` | aesd-char-driver/main.c:157-175 | in a run that evicts nothing, however many commands were evicted before it, all reads of a file together are one piece of the contents, whoever writes in between |
| `DeviceRuns.ReadsGiveContents` | server/handler.c:34-142 | a file at position 0 that is given nothing up to some point, then sees no eviction and reads to the end, has been given exactly the contents |
| `DeviceRuns.PureReadsJoinUp` | aesd-char-driver/main.c:157-175 | without writers, the same holds at any fill level |
| `DeviceRuns.DrainIsExact` | server/handler.c:161-182 | reading to the end while no command is completed, whatever else other files do, delivers exactly the contents from the position on and leaves the position at their end |
| `DeviceRuns.DrainGivesAllIff` | server/handler.c:136-142 | such a drain gives all the contents if and only if it began at position 0 or there were none |
| `DeviceRuns.DrainAmongWriters` | server/handler.c:161-182 | reading to the end while nothing is evicted delivers the contents as they are at the end, from the position on, whoever writes |
| `DeviceRuns.DrainSkipsEvicted` | server/handler.c:136-142 | a descriptor at the end is given, of what others add before its next drain, all but as many leading bytes as were evicted, or nothing if more were; during the drain no command is completed, whatever else other files do |
| `DeviceRuns.DrainAfterPacket` | server/handler.c:113-142 | on a full ring a packet of n bytes that evicts e bytes is followed by a drain of its last n - e bytes, or of nothing, if no command is completed during the drain |
| `DeviceRuns.RunKeepsFramed` | aesd-char-driver/main.c:212-258 | in every reachable state the partial command has no newline and every completed one has |
| `DeviceRuns.NewlinesComeLast` | aesd-char-driver/main.c:237-258 | for every command completed in a run there is the one write that took the command count from k to k + 1; the command is the newline-free pending bytes and then that chunk, which holds all its newlines |
| `DeviceRuns.StepCompletes` | aesd-char-driver/main.c:237-254 | an operation adds at most one command: newline-free bytes and then the chunk it wrote |
| `DeviceRuns.StepKeepsBalance` | aesd-char-driver/main.c:194-258 | one operation keeps the device in balance with a ledger that knows no commands |
| `DeviceRuns.BytesAreConserved` | aesd-char-driver/main.c:194-258 | over any run, evicted bytes, held commands and partial command are the accepted bytes in order; a copy fault loses exactly the partial ones |
| `DeviceRuns.StepForgetsEvicted` | aesd-char-driver/main.c:45-263 | one operation gives the same result, and states that agree again, from two states that agree on the last ten commands, their rotation, the partial command and the positions |
| `DeviceRuns.RunForgetsEvicted` | aesd-char-driver/main.c:45-263 | so every run does: the device is the last ten commands plus a partial one |
| `DeviceRuns.WriteReturns` | aesd-char-driver/main.c:237-259 | a write that goes through returns the bytes it added to the stream of commands if it completed one, which a newline in its chunk decides, and otherwise the bytes it was given; the position moves by what it returns |
| `DeviceRuns.PositionCountsReturns` | aesd-char-driver/main.c:143-263 | over any run, the position of a file that is only read and written is what its calls have returned in all, whoever else does what |
| `DeviceRuns.FailuresAreExact` | aesd-char-driver/main.c:45-263 | for every operation, the exact condition and number of its error; a failed operation delivers and changes nothing, no position either, except that a write that meets a copy fault drops the partial command and nothing else |
| `DeviceRuns.FailuresLeaveNoTrace` | aesd-char-driver/main.c:45-263 | so failed operations other than that write can be left out of any run: the device ends the same and every file is given the same bytes |
| `DeviceRuns.WriteOverReports` | aesd-char-driver/main.c:243-259 | a write returns more than it was given if and only if it completes a command begun earlier |
| `DeviceRuns.WriteCanOverReport` | aesd-char-driver/main.c:243-259 | a run of two one-byte writes whose second returns 2 |
| `DeviceRuns.PacketsStayWhole` | aesd-char-driver/main.c:237-259 | if every accepted write carries a newline, the log grows by exactly those writes and nothing stays pending |
| `DeviceRuns.PacketReturnsItsLength` | aesd-char-driver/main.c:243-258 | and each of them returns the length it was given |
| `DeviceRuns.SeekStaysInside` | aesd-char-driver/main.c:92-104 | an accepted seek goes strictly inside the contents |
| `DeviceRuns.SeekThenReadDelivers` | aesd-char-driver/main.c:92-104 | so a read after it returns at least one byte |
| `DeviceRuns.LlseekLands` | aesd-char-driver/main.c:128-141 | for every offset: SEEK_SET goes to it, SEEK_CUR to the position plus it, SEEK_END to the end plus it, each exactly if that lies in the contents, returning it and moving this file only; otherwise EINVAL and nothing changes; asking for the current position always succeeds |
| `DeviceRuns.SeekSetThenRead` | aesd-char-driver/main.c:128-179 | a read after SEEK_SET delivers the contents from there on |
| `DeviceRuns.SeekSetThenDrain` | aesd-char-driver/main.c:128-179 | reads to the end after SEEK_SET deliver all of the contents from there on |
| `DeviceRuns.SeekEndThenReadIsEmpty` | aesd-char-driver/main.c:128-141 | seeking to the end gives the contents' length, and a read there delivers nothing and returns 0 unless its lock wait is interrupted |
| `DeviceRuns.SeekIsFaithfulIff` | aesd-char-driver/aesd_ioctl.h:25-34 | every seek is accepted exactly when the documented command holds the documented byte, and then goes to it, if and only if fewer than ten commands were completed or the list of held sizes is the same when begun at the command in slot 0 |
| `DeviceRuns.SeekThenRead` | aesd-char-driver/main.c:71-104 | with the oldest command in slot 0, seek and read give the bytes of the command asked for |
| `DeviceRuns.SeekTargetRotated` | aesd-char-driver/main.c:92-104 | the exact position of a seek at every rotation |
| `DeviceRuns.SeekCanMiss` | aesd-char-driver/main.c:95-103 | after a run of eleven writes from the initial state an accepted seek goes three bytes past the one documented |
| `DeviceRuns.SeekCanRefuse` | aesd-char-driver/main.c:84-90 | after another such run a seek to a byte of the oldest command is refused |
| `DeviceRuns.ReadsOneEach` | aesd-char-driver/main.c:157-175 | reads from position 0 that are long enough give one command each |
| `DeviceRuns.SecondDrainIsEmpty` | server/handler.c:136-142 | from position 0, enough reads give all the contents and any more give nothing |
| `DeviceRuns.SecondDrainCanBeEmpty` | server/handler.c:136-142 | the run of one packet and two reads that shows it |
| `DeviceRuns.EleventhPacketCanBeSkipped` | server/handler.c:113-142 | after ten packets of four bytes, read to the end, an eleventh of two bytes is not given to the reader |
| `PacketFraming.FramingConserves` | server/handler.c:46-142 | for every chunking, packets and seek commands and then the tail are the bytes received, each once and in order, and the packets are those that are no commands |
| `PacketFraming.FramingWithoutSeeks` | server/handler.c:106-142 | without seek commands, packets and then tail are the bytes received |
| `PacketFraming.PacketsAreFramed` | server/handler.c:106-113 | every packet holds a newline and is no seek command; the tail is neither |
| `PacketBuffers.PacketBuffer.Malloc` | server/handler.c:23-32 | overwrites the pointer with a new live buffer or with NULL |
| `PacketBuffers.PacketBuffer.Receive` | server/handler.c:48-63 | the chunk is appended in bounds with its terminator; it fails only when growth is needed and refused |
| `PacketBuffers.PacketBuffer.Grow` | server/handler.c:51-59 | a larger buffer with the same bytes; the old one is no longer live |
| `PacketBuffers.PacketBuffer.Free` | server/handler.c:145-145 | may be called for a live buffer or NULL only, removes it from the live ones and leaves the pointer dangling |
| `PacketBuffers.PacketBuffer.Reset` | server/handler.c:125-134 | after freeing and allocating anew, exactly the buffer pointed to is live and it is empty, or none is |
| `ConnectionRuns.DrainTurn` | server/handler.c:165-180 | one turn of the echo loop, other threads first, extends what was sent by what was delivered |
| `ConnectionRuns.TurnMoves` | server/handler.c:165-180 | a turn ends at the end of the contents or makes progress, and fails exactly for an interrupted lock wait or for a copy fault with bytes to come |
| `ConnectionRuns.DrainCatchesUp` | server/handler.c:161-182 | a drain that gets to the end without eviction sends what follows the position, whoever writes; while no command is completed, all contents if and only if it began at 0 or there were none |
| `ConnectionRuns.TurnTells` | server/handler.c:165-180 | the same along the course of a whole drain: what each read returns, in terms of its fault, the bytes to come and the bytes delivered |
| `ConnectionRuns.CourseIsRun` | server/handler.c:161-182 | the course of a drain is the run of the device made of the planned operations of other threads and one read per turn, and delivers what that run delivers |
| `ConnectionRuns.DrainIsSettled` | server/handler.c:165-181 | since the loop stops at the first read that brings nothing or is not sent to the end, the device and the plan settle how many reads it makes, what they deliver and where they leave the device |
| `ConnectionRuns.CompletesIff` | server/handler.c:165-181 | an echo gets to the end of the contents exactly if the last of those reads returns 0 |
| `ConnectionRuns.DrainTellsEnd` | server/handler.c:165-181 | short of the end 0 is returned if and only if the last read met a fault, and -1 only after a short send |
| `ConnectionRuns.LastReadFails` | server/handler.c:165-181 | the last operation of a drain's run returns an error exactly when its fault and the bytes to come say so |
| `ConnectionRuns.DrainTraceIsQuiet` | server/handler.c:161-182 | a drain does nothing through the descriptor but read, and nothing through the one for packets |
| `ConnectionHandler.SendAll` | server/handler.c:165-181 | the loop follows the course of reads the device gives and stops after the first that brings nothing, be it for the end or for a failure, or that is not sent to the end, and after no other; it sends what was delivered, of the last read only the bytes that a short send took exactly when it returns -1; it ends once other threads leave the device alone |
| `ConnectionHandler.WriteToClient` | server/handler.c:161-182 | the device's run is exactly the planned operations of other threads and one read per turn, up to the first that brings nothing or is not sent to the end; what is sent is what that run delivered to the descriptor, cut short exactly when -1 is returned; at the end it has caught up with the contents, other writers included; short of the end it returns 0 if and only if the last read met a fault; an interrupted first read sends nothing and returns 0 |
| `ConnectionHandler.AppendPacket` | server/handler.c:184-203 | exactly one open and one write through the packet descriptor; succeeds if and only if the write does |
| `ConnectionHandler.Session.constructor` | server/handler.c:34-43 | the echo descriptor starts at position 0 |
| `ConnectionHandler.Session.Append` | server/handler.c:113-120 | the device run grows by exactly these two operations and what the device took from this connection by exactly the packet |
| `ConnectionHandler.Session.Interleave` | server/handler.c:46-143 | other threads run exactly the operations given, which send this client nothing |
| `ConnectionHandler.Session.Seek` | server/handler.c:73-82 | the seek step with both numbers cast to 32 bits unsigned (`ConnectionRuns.ToUint32`), and whether the device refused it |
| `ConnectionHandler.Session.Echo` | server/handler.c:136-141 | adds exactly the run of a drain, with as many reads as the device and the plan settle; the record tells exactly whether a short send ended it and whether it got to the end; the bytes it sends are what follows the descriptor's position if it gets to the end and nothing is evicted; with no seek and no eviction since some point at which nothing had been sent, all bytes sent so far are the contents; at every time the bytes sent are a prefix of those delivered |
| `ConnectionRuns.EchoIsWholeContents` | server/handler.c:34-142 | the echoes of a connection joined together are the device contents at the last echo, each byte once, at any fill level and with other writers, if nothing is evicted from the first echo on |
| `ConnectionRuns.PickIsWritesBy` | server/handler.c:106-123 | the log entries written by one connection are its accepted writes, in order |
| `ConnectionRuns.PacketsAreNotSpliced` | server/handler.c:106-123 | among well-behaved writers no partial command is left over, the log grows by whole packets and this connection's are its framed packets in order |
| `ConnectionRuns.InputTraceIsWhole` | server/handler.c:46-143 | in the run of a connection, writes through any other descriptor are those the input gives other threads: the handler writes through no other |
| `ConnectionRuns.ConnectionIsIsolated` | server/handler.c:46-143 | so, if the input lets other threads write whole packets only, the log grows by whole packets and this connection's are its framed packets in order |
| `ConnectionRuns.SeekThenEcho` | server/handler.c:76-87 | a seek that is accepted and an echo that gets to the end send the contents from the position sought on, unless some are evicted meanwhile |
| `ConnectionRuns.ToUint32` | server/handler.c:73-75 | the one value below 2^32 that differs by a multiple of 2^32, the number itself if that is not negative |
| `ConnectionRuns.SeekCommandThenEcho` | server/handler.c:69-87 | for numbers that are not negative, an accepted seek and an echo that gets to the end send the contents from the byte and slot the client named |
| `ConnectionRuns.NegativeSeekIsRefused` | server/handler.c:69-82 | a negative write command is always refused and changes nothing; a negative offset is refused unless the command sought has more than 2^31 bytes |
| `ConnectionHandler.OnSeek` | server/handler.c:65-104 | the run grows by the seek alone if it is refused and by seek and echo if it is accepted, even if the buffer cannot be reset after it; the echo then sends the contents from the position sought on; nothing is sent otherwise, no packet changes, and one that does not parse changes nothing; the loop goes on exactly if the seek was not refused, no send fell short and the buffer was reset |
| `ConnectionHandler.OnPacket` | server/handler.c:106-142 | the run grows by open, write and echo in that order, each exactly if what comes before succeeded; all bytes sent came with the one echo after the append, and none without it; the loop goes on exactly if open, write and allocation succeeded and no send fell short |
| `ConnectionHandler.Dispatch` | server/handler.c:65-142 | on every path: the exact growth of the run, packets that stay those of the framing, an echo exactly for its cause and what it sends after a seek, and whether the loop goes on, as an if-and-only-if |
| `ConnectionHandler.OnChunk` | server/handler.c:46-143 | the same for one turn of the receive loop, with exactly the operations its event gives other threads before it, and with a chunk that does not fit the buffer |
| `ConnectionHandler.ReceiveLoop` | server/handler.c:46-143 | over every input, the loop goes through all of it or stops at the first chunk after which it must not go on: one that cannot be stored, appended or answered for want of memory or a failing call, a refused seek or a short send; each chunk up to there is followed by an echo exactly if it has one, of as many reads as the device makes it; the device's run is exactly that of these chunks and of the framing; the packets appended are the framing of the chunks dealt with |
| `ConnectionHandler.HandleConnection` | server/handler.c:15-159 | on every exit `done` is set and no buffer is live, each having been freed once while live; how far the connection gets, the device's run and every echo are as for the loop, the log grows by whole packets in isolation if other threads write whole packets, and what was sent is what the record says at the end |
| `ConnectionRuns.TurnsAgree` | server/handler.c:46-143 | two accounts of a connection over the same input agree, chunk by chunk, on the number of reads of each echo |
| `ConnectionRuns.ConnectionIsSettled` | server/handler.c:15-159 | so the device at the start and the input settle how a connection goes: how far it gets, why it stops, each read of each echo, the packets appended, what becomes of the device and, unless a send fell short, what the client was sent |
| `ConnectionHandler.EchoCanFailSilently` | server/handler.c:165-181 | an echo whose first read is interrupted sends nothing of the packet the device holds and returns 0; the next one sends it |
| `ConnectionRegistry.ChainedApart` | server/queue.h:295-298 | a list that ends passes no node twice |
| `ConnectionRegistry.SelectMembers` | server/aesdsocket.c:70-85 | a node is reaped or kept exactly by whether it was seen done |
| `ConnectionRegistry.SelectCounts` | server/aesdsocket.c:70-85 | as many nodes are reaped and kept as there were |
| `ConnectionRegistry.SelectAccounts` | server/aesdsocket.c:70-85 | reaped and kept nodes together are all nodes, each as often as before |
| `ConnectionRegistry.KeptByMark` | server/aesdsocket.c:70-85 | a node stays on the list exactly if it was not seen done, and the counts add up |
| `ConnectionRegistry.Registry.InsertHead` | server/queue.h:329-332 | refines prepending |
| `ConnectionRegistry.Registry.Remove` | server/queue.h:336-359 | refines removal at the node's position, walking live nodes only |
| `ConnectionRegistry.Registry.Visit` | server/aesdsocket.c:74-83 | the loop body joins, unlinks and frees a node seen done, and yields the successor it read before |
| `ConnectionRegistry.Registry.Reap` | server/aesdsocket.c:70-85 | with flags rising at any time: nodes seen done are joined and freed once in order, exactly the others stay, in order, none done at entry stays, the count is exact |
| `ConnectionRegistry.Registry.Enlist` | server/aesdsocket.c:233-247 | lists a new live node at the head |
| `ConnectionRegistry.Registry.Discard` | server/aesdsocket.c:250-258 | takes back and frees a node whose thread was not created |
| `ConnectionRegistry.Registry.Turn` | server/aesdsocket.c:214-261 | one turn lists at most one new node and joins and frees nodes; listed before and begun are, node by node, listed after and joined; listed before and made are, node by node, listed after and freed; once a thread has been started every node that was done before is joined and freed, and without that none is |
| `ConnectionRegistry.Registry.Serve` | server/aesdsocket.c:214-263 | over any run of the accept loop and the reaping after it, the nodes listed before and those begun are, each as often, those still listed and those joined, which are all different and counted; the nodes listed before and those made are those still listed and those freed, each exactly once; every node listed and done at the start has been joined and freed |
| `TailQueues.QueueApart` | server/queue.h:801-823 | a queue that ends passes no element twice |
| `TailQueues.SplicedInIsQueue` | server/queue.h:952-998 | the links after any insertion are those of the sequence with the element inserted |
| `TailQueues.BypassedIsQueue` | server/queue.h:1025-1041 | the links after a removal are those of the sequence without the element |
| `TailQueues.SubstitutedIsQueue` | server/queue.h:1043-1059 | the links after a replacement are those of the sequence with the element replaced |
| `TailQueues.JoinedIsQueue` | server/queue.h:888-897 | the links after a concatenation are those of the two sequences joined |
| `TailQueues.InsertHead` | server/queue.h:977-988 | refines prepending and keeps the next/prev/last invariant |
| `TailQueues.InsertTail` | server/queue.h:990-998 | refines appending, through the tail address |
| `TailQueues.InsertAfter` | server/queue.h:952-965 | refines insertion after an element, last or not |
| `TailQueues.InsertBefore` | server/queue.h:967-975 | refines insertion before an element without being given the head |
| `TailQueues.Remove` | server/queue.h:1025-1041 | refines removal of any element |
| `TailQueues.Replace` | server/queue.h:1043-1059 | refines replacement of any element |
| `TailQueues.Concat` | server/queue.h:888-897 | refines concatenation, empty queues included, and empties the second |
| `TailQueues.SplitAfter` | server/queue.h:1061-1076 | refines splitting, into a head that need not be initialised |
| `TailQueues.Swap` | server/queue.h:1078-1093 | exchanges two queues, empty ones and a queue with itself included |
| `TailQueues.ConcatThenSplit` | server/queue.h:1061-1076 | splitting after the old last element undoes a concatenation of non-empty queues, every link restored |
| `TailQueues.Last` | server/queue.h:1000-1001 | the layout pun yields the true last element, or null |
| `TailQueues.Prev` | server/queue.h:1015-1016 | the layout pun yields the true predecessor, or null at the front |
| `TailQueues.Forward` | server/queue.h:906-909 | visits the queue in order |
| `TailQueues.Backward` | server/queue.h:926-929 | visits the queue in reverse order |
| `SinglyTailQueues.SplicedInIsQueue` | server/queue.h:488-506 | the links after any insertion are those of the sequence with the element inserted |
| `SinglyTailQueues.BypassedIsQueue` | server/queue.h:515-539 | the links after a removal are those of the sequence without the element |
| `SinglyTailQueues.TurnedRoundIsQueue` | server/queue.h:568-581 | fully reversed links with the tail address at the old first element are those of the reversed sequence |
| `SinglyTailQueues.InsertHead` | server/queue.h:494-498 | refines prepending and keeps the tail address |
| `SinglyTailQueues.InsertTail` | server/queue.h:500-506 | refines appending through the tail address |
| `SinglyTailQueues.InsertAfter` | server/queue.h:488-492 | refines insertion after an element |
| `SinglyTailQueues.RemoveHead` | server/queue.h:535-539 | refines dropping the first element, the only one included |
| `SinglyTailQueues.RemoveAfter` | server/queue.h:529-533 | refines dropping a successor, the last one included |
| `SinglyTailQueues.Remove` | server/queue.h:515-527 | refines removal of any element |
| `SinglyTailQueues.Concat` | server/queue.h:444-450 | refines concatenation, empty queues included |
| `SinglyTailQueues.SplitAfter` | server/queue.h:541-553 | refines splitting, after the last element included |
| `SinglyTailQueues.Swap` | server/queue.h:555-566 | exchanges two queues, empty ones and a queue with itself included |
| `SinglyTailQueues.Reverse` | server/queue.h:568-581 | reverses in place, with the tail address in the new last element |
| `SinglyTailQueues.Last` | server/queue.h:508-511 | the element whose link the tail address names, or null |
| `SinglyTailQueues.Forward` | server/queue.h:463-466 | visits the queue in order |

## Left out

- Integer widths: sizes and positions are unbounded; the stored bytes are taken to stay below 2^63, so `size_t` and `loff_t` sums do not wrap.
- A zero-byte `kzalloc` is an allocation of its own here; the kernel returns one shared non-null address for all of them.
- `aesd_open`, `aesd_release`, device registration and debug output: foreign calls without state of their own (opening a file only sets its position to 0).
- The address of a freed connection node that `malloc()` may give out again: each node keeps its own identity.
- The file descriptor numbers that `open()` reuses: each open file keeps its own identity for the whole run.
- Parsing of the seek arguments with `sscanf`: the two integers, or the failure to parse, are inputs.
- Socket setup, daemonizing, signals, system logging and the timestamp timer, which server/Makefile compiles out.
- The build of the server without the character device, with its file and mutex.
- Closing of descriptors in the handler and the accept loop.
- The order of `done` against the handler's last statements is fixed by the model's last statement, not by a theorem about memory visibility between threads.
- ReceiveLoop: does not model an endless connection; the input is any finite list of chunks.
- WriteToClient: other threads interfere any finite number of times; with writers that never pause the loop need not end.
- The LIST family, the FROM and SAFE traversal variants of the queues other than the one the reaper uses, SLIST concat, split and swap, and the debug and C++ variants of the macros: no other file of the repository uses them.
- `examples/`, `finder-app/`, the shell scripts and the ioctl test program: thin wrappers over system calls.
