# The aesdchar command log

A Dafny model of a small log service and proofs about it: a character device
that keeps the last ten newline-terminated commands written to it, and a socket
server whose client threads append lines to the device, seek in it and read it
back. There are three layers, each proved against the one below it.

1. **Ring buffer** (`CircularBuffer.dfy`, with `KernelHeap.dfy` for the
   allocator). The class `Ring` has the ten slots, the two wrapping indices and
   the `full` flag of the C structure. A ghost sequence records every entry ever
   added; the invariant says that the slots, read from the oldest one with
   wraparound, are the last ten of that sequence.
2. **Character driver** (`CharDriver.dfy`, specified in `ByteStream.dfy` and
   `CommandLog.dfy`). The class `Device` has the ring, the unfinished command,
   the semaphore and the heap blocks behind the pointers. A ghost field holds
   every byte accepted so far, and the invariant says that the device is the
   split of that history into commands: the ring holds the last ten, the
   unfinished command holds the rest, every live heap block belongs to exactly
   one of them. `SemaphoreRuns.dfy` takes the same operations apart into single
   steps and interleaves any number of threads; `CallResults.dfy` and
   `StaleSeeks.dfy` say what each kind of call then returns, and that every call
   does return.
3. **Socket server** (`ReceiveBuffer.dfy`, `SeekCommand.dfy`,
   `ClientSession.dfy`, `SocketServer.dfy`, `ClientThreads.dfy`,
   `ClientProgress.dfy`). The receive
   loop with its doubling buffer, the parsing of seek lines, the readback loop
   over a socket that takes partial writes and is interrupted, and finally any
   number of client threads that interleave at the log lock. The driver calls in
   `ClientThreads` are the functions the methods of `Device` are proved against
   (`FaultyWrite`, `ReadChunk`, `SeekTo`, `FixedSizeLlseek`), each taken as one
   step. For writes, reads and length queries `SemaphoreRuns` justifies that; a
   seek request is more than one step of the driver and is one step here because
   the server holds the log lock around it. The receive loop appears as a method
   in `SocketServer` and as steps of a thread in `ClientThreads`; both are proved
   to go through the turns of the same session (`ReceivePackets`,
   `OneClientIsServed`), and no client gets stuck on the way
   (`EveryLineIsAnswered`, `OneStreamIsAnswered`).

Characters stand for bytes. Choices the code leaves to its surroundings are
parameters: which allocations and user copies fail (`WriteFaults`, `TurnFaults`,
`Env` and the `...Fails` parameters), whether `krealloc` moves a block, what
`recv` delivers, and how the socket answers each write (`Socket.script`).

Where the code does not do what is expected of it, the model follows the code,
and a theorem says exactly when the two agree:

- **Seeking to command 9.** `aesd_ioctl` admits every command number below ten
  (main.c:239), which `aesd_ioctl.h:27` describes as the zero referenced command.
  Its loop ends before the first round for command 9, so that such a request goes
  to position 0 whatever is stored and whatever the offset
  (`SeekNineGoesToStart`). A seek to a byte of a stored command lands on that byte
  if and only if the command is not number 9 (`SeekLandsIff`); every device filled
  with ten commands is an example where it does not (`SeekNineMisses`).
- **The reported result of a write.** `aesd_write` reports `-ENOMEM` when the
  allocation after a commit fails, although the command is stored by then.
  `ReportIsTruthful` proves that this is the only case in which the return value
  misreports what was taken. The allocation asks for 0 bytes (main.c:174), which
  Linux answers with a sentinel that is not NULL, so under that kernel the case
  does not arise.
- **The size of a read.** `aesd_read` copies the rest of the command whatever
  `count` says (main.c:90-98), and the server reads into 1024 bytes
  (server/aesdsocket.c:218-224). One read fits its buffer if and only if what is
  left of its command does (`ReadFitsIff`); all reads fit if and only if every
  stored command does (`ReadsFitIff`), which in any run means the ten commands of
  the window (`ReadsFitWindowIff`). A single longer line is enough to break that
  (`LongCommandDoesNotFit`). `Device.Read` is given the memory behind the buffer
  and says what is written there. The server's methods require that what a
  readback is to read fits, a condition on the client's lines and positions
  (`ReadbacksFit`); `ShortLinesFit` and `ReadsFitTheBuffer` show that short client
  lines are enough for it.
- **The slot `aesd_ioctl` starts from.** It is read before the semaphore is taken
  (main.c:244-248), so that other writers may move it first. In every run of the
  driver a request then adds up from as many slots before the oldest command as
  were evicted in between, modulo ten, and is right if and only if that is none,
  or it is for command 9 (which goes to 0 in any case), or the commands it meets
  too early are as long, together, as those it does not get to (`SeekSums`). After one eviction: if and only if the
  new command is as long as the one asked for (`OneCommitBetween`). For any ten
  commands, any of them from 1 to 8 and any new command of another length there is
  a run of two threads in which the request misses (`StaleSeekMisses`). The
  server's log lock excludes this.
- **`sscanf`** is modelled on every line. Where ISO C leaves a conversion that
  overflows undefined, the model takes the usual library behaviour (saturation
  at 64 bits, truncation to 32).

`aesd_write` does not move the file position; the model does not either.

## Model

| member | source | states |
|---|---|---|
| `ByteStream.SplitExact` | aesd-char-driver/main.c:133-148 | Cutting a stream after its newlines loses and reorders nothing; every piece but the last has exactly one newline, at its end. |
| `ByteStream.SplitUnique` | aesd-char-driver/main.c:133-148 | That split is the only reading of a stream as complete commands and a newline-free rest. |
| `ByteStream.CutIsAccepted` | aesd-char-driver/main.c:133-148 | The number of bytes one write takes is characterised, both ways, as the end of the first command or of the buffer. |
| `ByteStream.LineAtUnique` | aesd-char-driver/aesd-circular-buffer.c:59-88 | A position lies in at most one command. |
| `CircularBuffer.Ring.constructor` | aesd-char-driver/aesd-circular-buffer.c:133-136 | The zeroed ring is valid and nothing has been added. |
| `CircularBuffer.Ring.AddEntry` | aesd-char-driver/aesd-circular-buffer.c:99-128 | Afterwards the logical entries are the last ten of the old ones and the new one; exactly when the ring was full the oldest one's pointer is returned, else NULL, and the slot of the oldest entry moves on by one, with wraparound. |
| `CircularBuffer.Ring.LogicalIsLastTen` | aesd-char-driver/aesd-circular-buffer.c:112-125 | After any number of additions the slots from the oldest one, with wraparound, are the last ten entries added, in order; before the ring is full the oldest slot is slot 0. |
| `CircularBuffer.FindFrom` | aesd-char-driver/aesd-circular-buffer.c:59-88 | The lookup loop over the slots fails exactly when the position is not below the total size; otherwise it yields the slot and the offset whose preceding sizes add up to the position. |
| `CircularBuffer.Ring.FindEntryOffsetForFpos` | aesd-char-driver/aesd-circular-buffer.c:51-89 | The same about a valid ring; a miss leaves the caller's offset variable alone. |
| `CircularBuffer.Ring.PhysicalTotal` | aesd-char-driver/main.c:206-209 | The sizes of all ten physical slots add up to the size of the logical contents, full or not, for any rotation. |
| `CircularBuffer.Ring.SumSlots` | aesd-char-driver/main.c:203-209 | The length loop computes the size of the logical contents. |
| `CircularBuffer.SumFrom` | aesd-char-driver/main.c:244-257 | The wrapping loop from any slot terminates and computes the size of the slots it walks over plus the offset; for command 9 it adds nothing. |
| `CircularBuffer.Ring.SumBefore` | aesd-char-driver/main.c:244-257 | From the oldest slot that is the size of the logical entries before the command plus the offset, where entries that are not stored count 0. |
| `KernelHeap.Heap.Krealloc` | aesd-char-driver/main.c:152-157 | Contract relied on: the block is resized in place or moved, the common prefix survives, a moved-from block is freed, failure changes nothing. |
| `KernelHeap.Heap.Kfree` | aesd-char-driver/main.c:168-170 | Contract relied on: only live blocks are freed, and each free is counted. |
| `CommandLog.WriteExtends` | aesd-char-driver/main.c:149-182 | One write takes the split of a history to the split of the history extended by the bytes it took. |
| `CommandLog.ReportIsTruthful` | aesd-char-driver/main.c:162-182 | The result of a write is the number of bytes taken, or negative with none taken, exactly unless the allocation after a commit fails. |
| `CommandLog.ResultIsTaken` | aesd-char-driver/main.c:121-182 | A result that is not negative is the number of bytes taken, up to the first newline; a negative one is the error of the first service to fail, and arises exactly when one does. |
| `CommandLog.ChunkingIndependence` | aesd-char-driver/main.c:133-182 | Any two ways of cutting a stream into writes, with short writes resubmitted, reach the same state: the last ten lines of the whole stream and its trailing piece. |
| `CommandLog.LineShape` | aesd-char-driver/main.c:133-176 | In every reachable state there are at most ten commands, each with one newline, at its end, and the unfinished command has none. |
| `CommandLog.ReadChunkInLine` | aesd-char-driver/main.c:82-98 | A read at a position inside command k returns exactly the rest of command k. |
| `CommandLog.ReadChunkExact` | aesd-char-driver/main.c:82-98 | A read returns nothing exactly at or past the end; otherwise it returns the bytes of the contents at the position, as a suffix of one line. |
| `CommandLog.ReadFitsIff` | aesd-char-driver/main.c:90-98 | A read inside command k fits a buffer if and only if what is left of that command does. |
| `CommandLog.ReadsFitIff` | aesd-char-driver/main.c:90-98 | Reads at every position fit a buffer if and only if every stored command does. |
| `CommandLog.LongCommandDoesNotFit` | aesd-char-driver/main.c:90-98 | A device that holds one command longer than the buffer is enough for a read not to fit. |
| `CommandLog.ReadLoopExact` | server/aesdsocket.c:223-250 | Repeated reads from any position deliver the contents from there once and in order, with at most one read per remaining command. |
| `CommandLog.ReplayInTenReads` | server/aesdsocket.c:223-250 | In every reachable state that takes at most ten non-empty reads. |
| `CommandLog.ReplayWithinLater` | server/aesdsocket.c:223-250 | If all reads from a position on fit a buffer, so do all reads from every later position. |
| `CommandLog.SeekThenRead` | aesd-char-driver/main.c:244-261 | After a seek to a byte of a stored command below 9 the next read returns exactly the rest of that command and ends at the start of the next. |
| `CommandLog.SeekEffect` | aesd-char-driver/main.c:239-261 | For every command number and offset, also past the command's end: the position goes to the start of the command plus the offset exactly when that is within the contents, and otherwise does not move. |
| `CommandLog.SeekRefusedIff` | aesd-char-driver/main.c:193-214 | For every kind of llseek: refused exactly when the position wanted is outside the contents, and then nothing moves; asking for the current position never is. |
| `CommandLog.SeekEndLeaves` | aesd-char-driver/main.c:193-214 | After a seek to k before the end exactly the last k bytes are left to read; a seek to the end goes to the first position where a read returns nothing. |
| `CommandLog.SeekCurAdds` | aesd-char-driver/main.c:193-214 | Two relative seeks within the contents move by their sum. |
| `CommandLog.SeekLandsIff` | aesd-char-driver/main.c:239-261 | A seek to a byte of a stored command lands on that byte if and only if the command is not number 9, which seeks to 0. |
| `CommandLog.SeekPastStored` | aesd-char-driver/main.c:250-261 | A seek to a command that is not stored counts from the end, so it is accepted only with offset 0. |
| `CommandLog.SeekNineGoesToStart` | aesd-char-driver/main.c:239-261 | A seek to command 9 goes to position 0 whatever is stored and whatever the offset. |
| `CommandLog.SeekNineMisses` | aesd-char-driver/main.c:239-261 | Any ten commands written to a fresh device are stored as they are, and a seek to a byte of the last one then misses it. |
| `CommandLog.StaleTargetIff` | aesd-char-driver/main.c:244-257 | A sum that starts some slots before the oldest command is the position asked for if and only if the commands it meets too early have the size of those it does not get to; from the oldest slot it always is. |
| `CommandLog.OneCommitBetween` | aesd-char-driver/main.c:244-257 | If one commit to a full device comes in between, that is so exactly when the new command is as long as the one asked for. |
| `CharDriver.OwnsGrow` | aesd-char-driver/main.c:152-159 | Growing the pending entry, in place or moved, keeps every block owned exactly once. |
| `CharDriver.OwnsCommit` | aesd-char-driver/main.c:162-173 | Handing the pending entry to the ring and freeing the evicted one keeps every block owned exactly once. |
| `CharDriver.LiveCount` | aesd-char-driver/main.c:152-179 | The live blocks are exactly as many as the stored commands and the pending entry. |
| `CharDriver.SizesAreLengths` | aesd-char-driver/main.c:158-159 | The sizes in the entries are the lengths of the commands behind the pointers. |
| `CharDriver.Device.constructor` | aesd-char-driver/main.c:311-342 | A new device is valid with an empty history. |
| `CharDriver.Device.ScanForTerminator` | aesd-char-driver/main.c:133-148 | The scan loop finds the end of the first command, or that there is none. |
| `CharDriver.Device.Write` | aesd-char-driver/main.c:111-191 | For every combination of failures: the history grows by exactly the bytes taken, the device is the split of the new history, blocks stay owned once, the semaphore is taken once, unless the call fails before, and released, the slot of the oldest command moves exactly on a commit to a full device; the result is the number of bytes added, up to the first newline, or the error of the first service to fail. |
| `CharDriver.Device.AddPiece` | aesd-char-driver/main.c:149-187 | The part under the semaphore, by cases: failed growth changes nothing, a piece without newline extends the unfinished command, a terminator commits it. |
| `CharDriver.Device.Read` | aesd-char-driver/main.c:69-109 | Whatever `count` is, the memory from the buffer on receives what is left of the command at the position, and is as before behind that; the position advances by as much. At end of file or on a failed copy the position stays. |
| `CharDriver.Device.Llseek` | aesd-char-driver/main.c:193-218 | A negative result leaves the position alone, any other is the new position. A relative seek moves by its offset, a seek to the end leaves as many bytes to read as its offset is before the end; the request is refused exactly when the position wanted is outside the logical contents, asking for the current position never. |
| `CharDriver.Device.SumFromSlot` | aesd-char-driver/main.c:244-260 | From any slot, stale or not, the section computes the sum of a walk that starts as many slots before the oldest command as the given slot is behind. |
| `CharDriver.Device.Ioctl` | aesd-char-driver/main.c:220-270 | A negative result leaves the position alone, any other is the new position and within the contents. For a stored command below 9, and any offset, that is the start of the command plus the offset; the request is refused exactly for a failed copy, another request, a command number of ten or more, or a position outside the contents. |
| `CharDriver.Device.Cleanup` | aesd-char-driver/main.c:377-388 | As far as the blocks allocated for commands go: none is left, and every one has been freed exactly once. |
| `SemaphoreRuns.ReplayIsHistory` | aesd-char-driver/main.c:133-182 | Atomic calls applied in any order keep the device equal to the split of the bytes they accepted. |
| `SemaphoreRuns.RunKeepsLinear` | aesd-char-driver/main.c:121-187 | Every interleaving of single steps keeps the linearity invariant: shared state, holder and partial work of the holder agree with the atomic calls in acquisition order. |
| `SemaphoreRuns.Linearizable` | aesd-char-driver/main.c:81-260 | After any interleaving of any number of writers, readers, length queries and seek requests at most one is inside; whenever none is, the state, and what each thread was returned by its calls that got the semaphore, are those of running these one after the other in acquisition order; a call that failed before that returned what it would anywhere in that order, and would change nothing there; each thread's calls are admitted, or refused, in the order it started them. |
| `SemaphoreRuns.ProgramOrder` | aesd-char-driver/main.c:111-187 | In every run, of the calls a thread has started, those that fail early are refused and the others get the semaphore, in the order started, but for one in preparation. |
| `SemaphoreRuns.OrderOnlyGrows` | aesd-char-driver/main.c:121-187 | Going on only adds to the order and to the results, so that a call that got the semaphore comes before every one started later. |
| `CallResults.ReadReturns` | aesd-char-driver/main.c:81-109 | In every run each read is given exactly the rest of the command at its position, among the last ten stored by the calls before it, or the error of a failed copy; nothing if and only if the position is at or past their end. |
| `CallResults.LengthReturns` | aesd-char-driver/main.c:199-212 | In every run each length query is given the size of those commands. |
| `CallResults.WriteReturns` | aesd-char-driver/main.c:121-187 | In every run each write that got the semaphore is given the number of bytes it added, up to its first newline, or an error, exactly when growing the entry or the allocation after a commit fails; nothing was added in the first case. |
| `CallResults.RefusedOrAdmitted` | aesd-char-driver/main.c:121-131 | In every run a write is refused before the semaphore exactly when its allocation or its copy fails, a seek request (main.c:233-242) exactly when its copy fails or its command number is ten or more, with the error that says so; nothing else is. |
| `CallResults.EveryCallReturns` | aesd-char-driver/main.c:121-187 | Every run can go on, with no new call, until every call started has been refused or has returned, to its thread, in the order started, and the semaphore is free. |
| `StaleSeeks.SeekSums` | aesd-char-driver/main.c:244-260 | Every seek request of every run read the slot as it was after some earlier number of calls, adds up from so many slots before the oldest command as were evicted since, modulo ten, and gives the position asked for if and only if that is none, the command is number 9, or it skips as many bytes as it meets too early. |
| `StaleSeeks.StaleSeekMisses` | aesd-char-driver/main.c:244-260 | For any ten commands, any of them from 1 to 8 and any new command of another length than that, there is a run of two threads in which the request is answered with another position than the one asked for. |
| `SemaphoreRuns.AlwaysReleased` | aesd-char-driver/main.c:150-187 | On every path a thread that got the semaphore releases it by its fourth step, whatever the others do. |
| `SeekCommand.SeekFormSeeks` | server/aesdsocket.c:291-294 | Every line of the seek form, with white space and signs as `%u` allows, dispatches to exactly the numbers written: the sum of its digits times powers of ten, a minus sign counting down from 2^32, values beyond 64 bits saturating. |
| `SeekCommand.SeekersHaveSeekForm` | server/aesdsocket.c:291-294 | Only lines of that form dispatch to a seek, and to the numbers written. |
| `SeekCommand.ValueIsWritten` | server/aesdsocket.c:294 | The number converted is the sum of the digits times powers of ten. |
| `SeekCommand.LeadingZero` | server/aesdsocket.c:294 | A leading zero does not change the number. |
| `SeekCommand.TextIff` | server/aesdsocket.c:291 | A line is text exactly when it does not start with the word. |
| `SeekCommand.SeekRoundTrip` | server/aesdsocket.c:291-299 | Printing any pair of 32-bit numbers as a seek line and dispatching it gives back that pair, never text. |
| `ReceiveBuffer.LongestIsMaximum` | server/aesdsocket.c:269-283 | The growth bound is the length of the longest command of the stream, finished or not. |
| `ReceiveBuffer.LineBuffer.Push` | server/aesdsocket.c:272-283 | Appending a byte loses and reorders nothing, grown or not; capacity stays 1024 times a power of two, below twice the longest command once grown, and above all bytes copied by growth; a failed realloc appends nothing. |
| `ClientSession.ServedCommands` | server/aesdsocket.c:299-316 | Starting between commands, the commands after serving a stream are those before and the client's text lines. |
| `ClientSession.EndToEnd` | server/aesdsocket.c:269-324 | The reply to each line is the last ten of all commands up to it, laid end to end, from the client's position on; the position moves only for a well-formed seek. |
| `ClientSession.TurnEffect` | server/aesdsocket.c:291-317 | A text line appends exactly itself and moves nothing; a malformed seek line changes nothing. |
| `ClientSession.RefusedSeekLine` | server/aesdsocket.c:291-298 | A seek line that the device refuses changes neither device nor position and is answered from there. |
| `ClientSession.StoredCommands` | server/aesdsocket.c:299-316 | Whatever fails, the commands after serving are those before and the text lines whose writes did not fail, with nothing pending. |
| `ClientSession.EveryReply` | server/aesdsocket.c:290-321 | Whatever fails, the reply to line k is the last ten of the commands stored by then from the position asked for, or a beginning of that. |
| `ClientSession.NextReadbackFits` | server/aesdsocket.c:218-250 | If what every readback has to read fits when all of them are complete, it also fits when some were cut short. |
| `ClientSession.ShortLinesFit` | server/aesdsocket.c:218-224 | If the commands in the window and the text lines to come are short, what every readback has to read is within the buffer, whatever fails and from any position; commands evicted earlier do not matter. |
| `SocketServer.SendAll` | server/aesdsocket.c:236-245 | For any partial counts and interruptions each byte is sent once and in order; on an error a beginning has been sent. |
| `SocketServer.SendFileToSocket` | server/aesdsocket.c:215-254 | If the commands to be read fit the buffer: on success exactly the contents from the position on have been sent, in at most ten reads, and the position is as before, even when it was past the end; on failure a beginning has been sent and the position is where reading stopped. |
| `SocketServer.WriteLine` | server/aesdsocket.c:302-313 | The write loop stores the whole line, once, or nothing of it when a service fails before that. |
| `SocketServer.HandleLine` | server/aesdsocket.c:290-321 | If what is to be read back fits the buffer: whatever fails, one line changes history and position as its form asks, or not at all, and is answered with the contents from there on, or, only if something failed, a beginning of them; the log lock is taken once for the line, unless it is malformed, and once for the readback, and is free at the end. |
| `SocketServer.ReceivePackets` | server/aesdsocket.c:258-342 | For every byte stream and whatever fails: all bytes are received, or exactly those before the first byte for which the buffer must grow and cannot; device, position and bytes sent back are those of one turn for each line completed by then, in order, and of the contract's turns when nothing fails. The trailing piece is dropped. |
| `ClientThreads.WriteOnceExact` | server/aesdsocket.c:305-313 | A write section stores its line whole or not at all. |
| `ClientThreads.StepOk` | server/aesdsocket.c:291-323 | Every step of every client keeps the invariant over device, log, lock and all clients. |
| `ClientThreads.DeviceIsWindow` | server/aesdsocket.c:305-316 | For any number of clients, streams, failing writes, seeks, reads and sockets, and interleavings: between driver calls the device is exactly the last ten commands of the log with nothing pending, and at most one client is in a section. |
| `ClientThreads.ClientIsServed` | server/aesdsocket.c:290-323 | At every point of the same runs a client's lines are those of its turns and the current one, its log entries are those of them that were stored, in its own order, and what it was sent is its replies and what has gone out of the current one; each turn starts at the position and no earlier in the log than the one before ended, does what its line asks, and is answered with the log as it stood at its readback, or a beginning of that if the readback failed. |
| `ClientThreads.LogIsMerge` | server/aesdsocket.c:305-321 | Without failures, at every point a client's part of the log is exactly the text lines received from it, but for one still before the end of its write section, so the log is an order-preserving merge. |
| `ClientThreads.RepliesAreWhole` | server/aesdsocket.c:290-323 | Without failures every text line is stored, every reply is whole, and every turn leaves the position its line asks for. |
| `ClientThreads.OneClientIsServed` | server/aesdsocket.c:258-323 | A client thread that has the server to itself, whatever fails, goes through the turns of a session, the one of the contract when nothing fails; between lines device, position and bytes sent are those of that session. |
| `ClientThreads.LockIsReleased` | server/aesdsocket.c:295-321 | Whatever fails and whatever the other clients do, a client that got the log lock gives it back within twelve steps of its own, ten of them rounds of the readback. |
| `ClientProgress.TurnFinishes` | server/aesdsocket.c:290-323 | A client in a turn that has the log lock or finds it free finishes the turn within seventeen steps of its own, whatever fails; the turn recorded is the one for its line. |
| `ClientProgress.EveryLineIsAnswered` | server/aesdsocket.c:269-324 | For any number of clients, whatever failed and however they were interleaved, every run can go on until every complete line of every stream has had its turn, in order, and every client has been sent the replies. |
| `ClientProgress.OneStreamIsAnswered` | server/aesdsocket.c:269-324 | For every stream there is a run without failures in which a client alone has received all of it and has been sent exactly the replies of the contract, device and position being those of the contract. |
| `ClientThreads.LogEntriesAreLines` | server/aesdsocket.c:305-313 | Every command in the log is a line of the client it is attributed to; none mixes bytes of two clients. |
| `ClientThreads.StoredLineIsVisible` | server/aesdsocket.c:305-321 | With at most nine other commits between its write and its readback, a stored line is in the window of that readback and stands whole in the reply unless the position is past it. |
| `ClientThreads.RunStoredLineIsVisible` | server/aesdsocket.c:305-321 | The same for every finished turn of every client in every run. |
| `ClientThreads.EvictedLineIsGone` | aesd-char-driver/aesd-circular-buffer.c:107-125 | With ten or more, everything in the readback was committed after the line. |
| `ClientThreads.ReadsFitWindowIff` | server/aesdsocket.c:218-224 | In every run, reads at every position fit a buffer if and only if the commands in the window do. |
| `ClientThreads.ReadsFitTheBuffer` | server/aesdsocket.c:218-224 | If no client sends a line longer than the buffer, no read in any run returns more than fits. |

## Left out

- The file position type `loff_t`, `size_t` and `int` are unbounded here; requests near 2^63 bytes, and writes longer than an `int` can index, are not modelled.
- The scratch buffer of `aesd_write` (main.c:123), which no path frees, is a value, not a heap block; the ownership theorems are about the blocks allocated for commands.
- CharDriver.LiveCount: counts the block of an unfinished command of size 0 (main.c:174) as a block of its own; on Linux it is a sentinel shared by all requests for 0 bytes.
- CharDriver.Device.Ioctl: models a caller that has the device to itself. What the unsynchronised read of `out_offs` does with other writers about is the subject of `SumFromSlot` and `SeekSums`; the gap between the sum and the seek that follows is not interleaved with the position of the open file.
- CharDriver.Device.Cleanup: is about the blocks allocated for commands. The semaphore, the entry structure of the unfinished command and the ring structure, freed in the same lines, are objects here, not heap blocks.
- SemaphoreRuns.Linearizable: a seek request is its sum under the semaphore; the llseek it ends with is a length query of the same thread. The position update after a length query belongs to one open file and is not a step there.
- ClientProgress.EveryLineIsAnswered: says that a run can go on to the end, not that every fair scheduler takes it there; mutexes and semaphores promise no order among those that wait.
- SemaphoreRuns and ClientThreads are not connected by a theorem: the latter takes a driver call as one step.
- CharDriver.Device.Read: needs as much memory from the buffer on as it writes, and a failed copy may leave anything there. SocketServer.SendFileToSocket, SocketServer.HandleLine and SocketServer.ReceivePackets say nothing about a readback that overruns the 1024 bytes, as C says nothing about what happens then; `ReadFitsIff` and `ReadsFitIff` say exactly which reads those are.
- ClientThreads.ClientIsServed: a client whose buffer cannot grow is a client that takes no further step; its remaining bytes stay unread, and it keeps neither lock nor semaphore.
- Input that arrives in a blocked or failed `recv`: a stream ends where `recv` ends it.
- The terminating NUL stored behind the received line (server/aesdsocket.c:288): the line is delimited by its length.
- Other processes that write to the device while the server runs.
- The build on a regular file, its timer and its timestamp lines.
- Sockets, address lookup, signals, daemonizing, logging, printing, the thread queue, `open` and `release`.
- Module initialisation order and device registration, apart from the state of a new device.
- `fsync`, which the driver does not implement, and `aesd_print`.
