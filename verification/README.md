# A verified model of the AESD character device and its socket server

The model follows four layers of the repository.

- **The heap** (`KernelHeap.dfy`). The allocator as the driver sees it: blocks named by ids that are never
  used twice, so that freeing twice or following a stale pointer would break a precondition.
- **The ring** (`CircularBuffer.dfy`). A class over an array of slots, for any capacity from 1 to 255 (so that
  the `uint8_t` index arithmetic cannot wrap); its fields, taken as a value, are a `RingState`, and `View` is
  the list of live entries, oldest first.
- **The device** (`CharDevice.dfy`, with `Ledger.dfy`, `DeviceSpec.dfy` and `History.dfy`). A class whose
  methods are the driver's calls. A ghost field `events` holds the chunks of all successful writes in the
  order of `dev->lock`. `Valid()` says that ring, accumulator and heap are what that history prescribes, so
  it is a statement about every state that any sequence of calls, by any handles, can reach. `Ledger.Book`
  records what every block ever allocated is for.
- **The server** (`Server.dfy`, `Threads.dfy`, `ThreadList.dfy`). `HandleClient` is one connection run
  alone; `Threads` lets any number of threads take their steps in any order (a schedule is any sequence of
  thread ids) and relates every such run to `HandleClient`'s meaning, `Server.Finish`.

`History.Groups` is the reference meaning of the device, read off the history from its beginning: a command
is closed by each chunk that holds a newline. The code instead scans a growing accumulator; `WriteStep` shows
that this is the same thing. Success or failure of allocations, user copies and interruptible locks is an
input of every call, so results hold for every pattern of failures unless a hypothesis says otherwise.
Automatic induction is switched off on every lemma: all inductions are written out.

## What the proofs show about the code

- The copy that `add_entry` allocates is never reachable afterwards (`AddEntry`). Together with accumulators
  dropped when that allocation fails, and the last accumulator, which unloading does not free, the blocks
  left after `aesd_cleanup_module` hold exactly as many bytes as were ever written (`Cleanup`).
- If that allocation fails, the command is lost although the write reports success. `Conservation` gives the
  exact condition under which no byte is lost, `AcknowledgedButLost` an input where one is.
- The ioctl's comments ask that the offset lie within the target command. The code also compares it with the
  command that happens to lie in the slot of the same number. `AcceptsAllIntended` says when this makes no
  difference, and `IoctlRefusesIntended` gives a history where it does.
- `aesd_llseek` clamps the requested position unless the sum overflows (`LlseekClamps`,
  `LlseekOverflowExample`).
- The server ignores the result of its lseek before a reply. When the driver's lock is interrupted there, the
  reply starts where the writes left the handle. `ReplyIsContents` gives the exact condition for a whole reply,
  `InterruptedRewindExample` an input where it is not.
- The server's prefix test can be decided by bytes of an earlier chunk (`PrefixTest`, `StaleBufferExample`).

## Model

| member | source | states |
|---|---|---|
| `ByteStrings.LocateUnique` | aesd-char-driver/aesd-circular-buffer.c:25-34 | a position in the concatenated entries lies in at most one entry, at one byte offset |
| `ByteStrings.LocateExists` | aesd-char-driver/aesd-circular-buffer.c:25-34 | it lies in some entry if and only if it is below the total size |
| `CircularBuffer.Ring.FindEntryOffset` | aesd-char-driver/aesd-circular-buffer.c:35-68 | in every ring state: NULL exactly from the total size on; otherwise the slot of the entry that holds the position, with the remainder as offset |
| `CircularBuffer.Ring.AddEntry` | aesd-char-driver/aesd-circular-buffer.c:77-129 | appends to the logical view and drops the oldest of a full ring, whose pointer it returns; leaves one unreferenced copy on the heap; changes nothing when the copy cannot be allocated |
| `CircularBuffer.PushedView` | aesd-char-driver/aesd-circular-buffer.c:110-125 | the offset arithmetic of an add is append and keep the newest, for every capacity and every ring state |
| `CircularBuffer.RingAfterShape` | aesd-char-driver/aesd-circular-buffer.c:43-51 | after n adds from a fresh ring: both offsets, the full flag, the view as the last min(n, capacity) entries, and untouched slots still zero |
| `CircularBuffer.Ring.constructor` | aesd-char-driver/aesd-circular-buffer.c:147-150 | a fresh ring is all zero |
| `CircularBuffer.Ring.Size` | aesd-char-driver/aesd-circular-buffer.c:131-142 | the loop over all slots in index order computes the physical total |
| `CircularBuffer.PhysicalIsLogical` | aesd-char-driver/aesd-circular-buffer.h:77-80 | in every ring state, wrapped or not, the physical total is the logical total if and only if all slots outside the live window have size zero |
| `CircularBuffer.ReachablePhysicalIsLogical` | aesd-char-driver/aesd-circular-buffer.c:131-142 | in every ring reachable by adds the two totals agree |
| `History.WriteStep` | aesd-char-driver/main.c:145-177 | scanning the whole accumulator and closing the group there agrees with the grouping of the whole history, and finds a newline exactly when the new chunk has one |
| `History.OpenHasNoNewline` | aesd-char-driver/main.c:157-177 | no newline ever stays in the accumulator between writes |
| `History.CommandStep` | aesd-char-driver/main.c:168-176 | which commands the ring holds after a write, and which command is lost when the inner allocation fails |
| `History.Conservation` | aesd-char-driver/main.c:145-177 | evicted bytes, live entries, accumulator: concatenated they are the stream of successful writes, if and only if add_entry could copy every completed command |
| `History.NoLosses` | aesd-char-driver/aesd-circular-buffer.c:95-100 | a completed command is lost exactly when that allocation fails for a chunk with a newline |
| `History.ConservationWithLoss` | aesd-char-driver/main.c:168-176 | the completed commands are exactly the evicted, the live and the lost ones, lengths add up, and none is lost exactly when every one could be copied |
| `CharDevice.AcknowledgedButLost` | aesd-char-driver/main.c:168-181 | a write of one newline that reports success and leaves nothing in the device |
| `History.ReadIsHistory` | aesd-char-driver/main.c:86-104 | a read at p shows the stream of stored commands from (evicted bytes + p) on; the stream of all writes when no command was lost |
| `History.ConnectionIsOneWrite` | server/aesdsocket.c:305-323 | the chunks of one connection commit what one write of all its bytes would; it completes at most one command, and without a newline its bytes stay open for the next |
| `History.ChunkingIsInvisible` | server/aesdsocket.c:277-324 | for any sequence of connections, grouping by chunk is grouping by connection |
| `DeviceSpec.ReadSplit` | aesd-char-driver/main.c:80-106 | reading a and then b bytes returns what reading a + b returns and ends at the same position |
| `DeviceSpec.ReadExactly` | aesd-char-driver/main.c:80-106 | nothing at or beyond the end; inside, as many bytes as asked for or as are left |
| `DeviceSpec.ReadResultExactly` | aesd-char-driver/main.c:97-106 | a read returns the number of bytes read if it gets as far as it would without a fault, and EFAULT otherwise, never a partial count |
| `DeviceSpec.FaultAtBoundary` | aesd-char-driver/main.c:97-104 | a read that faults after some copies leaves the position at the end of an entry |
| `DeviceSpec.EnoughCopies` | aesd-char-driver/main.c:86-104 | one copy per remaining entry completes any read |
| `DeviceSpec.LlseekClamps` | aesd-char-driver/main.c:199-220 | the result is the requested position clamped to the device if and only if the sum fits in loff_t or the device is empty |
| `DeviceSpec.LlseekExactly` | aesd-char-driver/main.c:199-224 | for whence 0, 1 and 2, by their numbers: the position reached for targets inside, before, beyond and overflowing; no change for another whence or a failed lock |
| `DeviceSpec.WrapExactly` | aesd-char-driver/main.c:204-207 | storing a sum in loff_t keeps it modulo 2^64 |
| `DeviceSpec.LlseekOverflowExample` | aesd-char-driver/main.c:206-216 | on any non-empty device the largest offset from the end leads to position 0 instead of the end |
| `DeviceSpec.SeekThenRead` | aesd-char-driver/main.c:196-224 | the result is inside the device, a relative seek by 0 keeps it, and reading from it to the end yields exactly the rest |
| `DeviceSpec.AcceptsExactly` | aesd-char-driver/main.c:245-271 | every accepted seek is a valid one; a valid one is refused exactly when its offset is beyond the command in the slot of the same number |
| `DeviceSpec.AcceptsAllIntended` | aesd-char-driver/main.c:245-271 | the ioctl accepts all valid seeks if and only if the command sizes repeat under the ring's rotation; always when the ring starts at slot 0 |
| `DeviceSpec.DeviceLayout` | aesd-char-driver/aesd-circular-buffer.c:117-125 | every history lays the ring out as the two preceding results ask |
| `DeviceSpec.IoctlRefusesIntended` | aesd-char-driver/main.c:249-251 | a reachable history and a valid seek that the ioctl refuses |
| `DeviceSpec.SeekRoundTrip` | aesd-char-driver/main.c:257-275 | after a seek to (c, o): what is left to read, the entry and offset that the position lies in, and the next entry or the end when o is the command's size |
| `DeviceSpec.IoctlExactly` | aesd-char-driver/main.c:235-271 | each error code under its condition; success exactly when the offset is within the live command of that number and within the one in the slot of that number |
| `DeviceSpec.IoctlMoves` | aesd-char-driver/main.c:253-278 | success moves the handle to the bytes of the older commands plus the offset, any failure leaves it |
| `DeviceSpec.IoctlUnwrapped` | aesd-char-driver/main.c:245-275 | while the ring starts at slot 0 every seek within a live command succeeds, to the byte it names |
| `Ledger.Ownership` | aesd-char-driver/main.c:146-180 | the live blocks are the ring's, one lost copy per stored command, the dropped accumulators and the accumulator, pairwise distinct; everything else allocated has been freed; their number |
| `Ledger.EvictOwned` | aesd-char-driver/main.c:168-172 | the evicted buffer was live and had no other role; freeing it keeps the ownership invariant and every other block |
| `Ledger.FreedStays` | aesd-char-driver/main.c:145-180 | a freed block stays freed through every step of the driver, so no block is freed twice |
| `Ledger.CommitOwned` | aesd-char-driver/aesd-circular-buffer.c:95-114 | turning the accumulator into an entry and losing the copy keeps the ownership invariant |
| `Ledger.LeakedBytes` | aesd-char-driver/main.c:349-354 | what no slot refers to holds as many bytes as were ever written |
| `CharDevice.Device.constructor` | aesd-char-driver/main.c:319-325 | the zeroed device satisfies the invariant with an empty history |
| `CharDevice.Device.Write` | aesd-char-driver/main.c:113-185 | keeps the invariant; each error code under its condition; success appends one chunk to the history and advances this handle; failure leaves ring, accumulator, live heap, history and position alone |
| `CharDevice.WriteExactly` | aesd-char-driver/main.c:123-151 | a write succeeds exactly when it has bytes and all its calls succeed, and returns their number; otherwise the first failure decides the error code |
| `CharDevice.Device.StoreChunk` | aesd-char-driver/main.c:145-177 | the critical section of a write keeps ring, accumulator and heap as the extended history prescribes |
| `CharDevice.Device.CommitAccumulator` | aesd-char-driver/main.c:160-176 | the whole accumulator becomes one entry, the evicted buffer is freed; or the accumulator is dropped |
| `CharDevice.Device.Read` | aesd-char-driver/main.c:63-111 | the bytes copied are the slice of the contents at the position, which advances by as much; the whole slice without a fault; with one, the position after the complete pieces and EFAULT |
| `CharDevice.Device.CopyEntries` | aesd-char-driver/main.c:86-106 | the loop across entry boundaries copies that slice and terminates |
| `CharDevice.Device.Llseek` | aesd-char-driver/main.c:187-225 | changes only this handle's position, to the specified one; error codes |
| `CharDevice.Device.Ioctl` | aesd-char-driver/main.c:227-279 | the two checks on physical and logical slots accept exactly `Accepts`; the position becomes the sum of the older sizes plus the offset; otherwise nothing changes; error codes |
| `CharDevice.Device.Cleanup` | aesd-char-driver/main.c:349-354 | frees exactly the ring's blocks, each once; what stays allocated, how many bytes, and that nothing stays exactly when nothing was ever written |
| `CharDevice.Device.MemoryHolds` | aesd-char-driver/aesd-circular-buffer.h:33-53 | in every reachable state the ring's pointers lead to the live commands of the history and the physical total is the length of the contents |
| `CharDevice.Device.StreamConserved` | aesd-char-driver/main.c:145-177 | conservation in memory: evicted bytes, the blocks the slots point to, the accumulator's block, if and only if every completed command could be copied |
| `CharDevice.Device.SlotHolds` | aesd-char-driver/main.c:249-251 | which live command lies in which physical slot |
| `Server.DrainDevice` | server/aesdsocket.c:317-321 | the 1024-byte read and send loop sends the device from the position to the end, or up to the interrupted read; it terminates |
| `Server.HandleClient` | server/aesdsocket.c:250-331 | the connection code, with its reused buffer and the device's calls, does what `Finish` says: history, replies, normal end or abort |
| `Server.OverwriteExactly` | server/aesdsocket.c:277 | the whole chunk reaches the receive buffer, and what is behind it stays |
| `Server.SeekArguments` | server/aesdsocket.c:280-302 | sscanf is handed the chunk's own arguments and behind them the old cells; a malformed command is passed over |
| `Server.PlainConnection` | server/aesdsocket.c:277-324 | a connection of plain chunks without failures, end to end: what it writes, that it ends normally, and its one reply |
| `Server.AbortsOnlyOnFailure` | server/aesdsocket.c:270-311 | a failed open aborts without a write; without a failed open or write the connection ends normally |
| `Server.DrainTurn` | server/aesdsocket.c:319-321 | one more read and send does not change what the whole drain does |
| `Server.StepFinishes` | server/aesdsocket.c:263-327 | the single steps of a thread compute handle_client |
| `Server.FinishWrote` | server/aesdsocket.c:277-324 | a connection only appends to the history, with a newline at most in its last chunk |
| `Server.LastReply` | server/aesdsocket.c:313-322 | which chunk completes a connection's command, if any, and what its last reply is, whatever fails on the way |
| `Server.ReplyIsContents` | server/aesdsocket.c:313-322 | the last reply is the device's contents at commit if and only if they are empty, or the handle is back at 0 and enough reads succeed; they end with what was open before and all bytes of this connection, or are the old contents if the ring could not take the command |
| `Server.CalmReply` | server/aesdsocket.c:313-322 | with nothing interrupted after the newline chunk the reply is the device's contents at commit |
| `Server.InterruptedRewindExample` | server/aesdsocket.c:315-321 | after an interrupted lseek the reply to a lone newline lacks the first byte of the device |
| `Server.SeekReply` | server/aesdsocket.c:280-301 | an accepted seek command is answered with the rest of that command and all later ones, as far as reads succeed and whether or not the lseek does, and is not written |
| `Server.SeekCommand` | server/aesdsocket.c:277-301 | from the received chunk to the reply: a seek within a live command of an unwrapped device |
| `Server.RefusedSeekReply` | server/aesdsocket.c:285-296 | a refused seek is answered with the device from wherever the handle is |
| `Server.PrefixTest` | server/aesdsocket.c:277-280 | the prefix test judges the received chunk itself if and only if the chunk is not a short beginning of the prefix completed by stale cells |
| `Server.PrefixIsText` | server/aesdsocket.c:30-31 | the prefix, character by character |
| `Server.StaleBufferExample` | server/aesdsocket.c:277-302 | a connection that sends a seek command and then its first letter writes nothing: the letter is taken for the command again |
| `Threads.Holder` | server/aesdsocket.c:263-327 | mutual exclusion: only the thread that holds file_mutex is between its lock and unlock |
| `Threads.RunInv` | server/aesdsocket.c:263-327 | the invariant of all interleavings, for every schedule |
| `Threads.Serializable` | server/aesdsocket.c:250-345 | every finished connection has written and answered what serving the connections one at a time, in lock order, gives; with the mutex free so has the device |
| `Threads.Ends` | server/aesdsocket.c:277-327 | a thread inside the critical section that gets enough turns leaves it and gives the mutex back, and moves nobody else |
| `Threads.Service` | server/aesdsocket.c:263-345 | any distinct connections can be served in any order: each is let in, ends as it would alone after those before it, and gives the mutex back |
| `Threads.AbortStops` | server/aesdsocket.c:305-311 | after an aborted connection the next step of its thread stops all threads for good |
| `Threads.ConnectionsAreContiguous` | server/aesdsocket.c:263-327 | in every state of every run each connection's chunks are contiguous in the device's history, complete at most one command, and are grouped as if each connection were one write |
| `Threads.InterleavedReply` | server/aesdsocket.c:313-322 | every connection that has given the mutex back, under every interleaving: whether it completed a command, and when its last reply is the device's contents at commit |
| `ThreadList.ThreadList.AddThread` | server/aesdsocket.c:154-163 | puts a new node in front, keeps the others and their order; exits when malloc fails |
| `ThreadList.ThreadList.RemoveThread` | server/aesdsocket.c:166-184 | unlinks and frees exactly the first node with the id, keeps order and identity of the rest; changes nothing if absent |
| `ThreadList.ThreadList.JoinThreads` | server/aesdsocket.c:187-196 | joins every thread once, in list order, frees every node once, leaves the list empty |
| `ThreadList.RemoveFirstAt` | server/aesdsocket.c:170-183 | removing the first occurrence, by its index |
| `ThreadList.RemovesOne` | server/aesdsocket.c:170-183 | exactly one occurrence of the id disappears, and no other id |
| `ThreadList.RemovalsCommute` | server/aesdsocket.c:170-183 | the order in which two threads remove themselves does not matter |

## Left out

- CharDevice.Device.Read: says nothing of the buffer behind the complete pieces when a copy to the user faults, because how far such a copy gets is not specified; its position is the f_pos that the driver is handed, which it advances even when it returns EFAULT and which the model identifies with the handle's own position.
- CharDevice.Device.Llseek: takes the sizes of the device as mathematical integers; totals of 2^63 bytes or more, which do not fit in the kernel's address space, are not modelled.
- KernelHeap.Heap.Krealloc: always moves the block; a block that grows in place is the same up to its name.
- The locks inside the driver: each call is one atomic step, since dev->lock is held throughout. The check of arguments and the copy from user space that precede the lock touch no shared state.
- Threads: the list of threads is modelled for sequential use only; it has no lock in the source, and races on it are not part of this model.
- The exit of the process through a signal or a failing accept: any prefix of a run is a run, so every result holds at that moment too.
- Fairness and progress of threads that wait for file_mutex.
- sscanf: what it makes of the cells behind the prefix is a parameter. It may read on behind the 1024 cells when
  they hold no end of string; what lies there is not modelled. The results of send are ignored, as in the source.
- aesd_open beyond giving a handle position 0, aesd_release, module and device registration, debug output.
- Socket set-up, accept, daemon mode, syslog.
- timestamp_thread and the data file branches, which are compiled out; the older server drafts; shell scripts, examples and tests.
