# A verified model of the AESD character device and its line server

The repository's centre is a character device that remembers the last ten lines written to it,
and a threaded TCP server that writes each client line to the device and answers with what the
device then contains. This project models both and proves what they promise together.

- `MachineInts`, `Addressing`, `CircularBuffers`: the ring of ten entries with its C integer
  arithmetic, and the two ways of naming a byte (flat position; command and offset).
- `KernelHeap`, `DeviceSpec`, `Devices`: the driver's write, read, ioctl and cleanup. `Devices.Device`
  is the driver's object, with its ring, its staging entry and the heap blocks they point to;
  every call is proved against the values of `DeviceSpec`, and the lemmas about `DeviceSpec` hold
  for every series of calls because `Device.Valid` keeps the full history of accepted payloads.
- `Framing`, `SeekCommand`: cutting the byte stream of a connection into messages, and recognising
  the one command among them.
- `Protocol`, `Serializability`: the concurrent server as a transition system whose steps are single
  device calls of single threads, and what all its runs have in common.
- `Runs`: which series of actions are runs, said without the server's state: the shuffles of legal
  single-thread programs in which the mutex is taken while it is free.
- `Fates`, `DeviceLines`, `Answers`, `Completion`: what the actions of a run alone say about each
  message (dropped, bytes written, write failed, reply failed), and by that which lines the device
  holds, what the clients receive, and how every run can be carried on to its end.
- `Environments`, `Server`: the critical section of one thread on the real device object; it performs
  the atomic step that `Protocol` uses to explain runs, and all of it when none of its calls fails.
- `Manager`, `Links`, `TailQueue`, `LinkedLists`, `SinglyTailQueue`: the linked lists, in place.

The environment is open: `kmalloc`, the copies between kernel and user space, `fopen`, `send` and
thread creation may fail; stdio may cut what it writes into any non-empty pieces; `recv` delivers a
given series of bytes, errors and a close. On the objects an `Environment` holds the script of the
failures to come; a contract says which part of it was used, and what is promised when that part
holds no failure. In `Protocol` every fallible call has a failing action. Bytes that stdio could not write are taken to be discarded with the error.

Where the code and its comments differ, the code is followed:

- A line is recognised by the last staged byte alone, so an entry may contain inner newlines;
  `DeviceSpec.ChunkingIndependentIff` says exactly for which data the pieces of a write do not matter.
- `aesd_circular_buffer_get_entry_fpos` returns a position reduced to 32 bits; it is exact exactly
  up to 2^31 - 1, and the driver stays below that because ten of the largest allocations do.
- `tcp_connection_send_file` reports success after a failed read, and `handle_message` ignores
  the result of the final flush; the size of stdio's buffer is a parameter of the model.

## Model

| member | source | states |
|---|---|---|
| Addressing.Bijection | aesd-char-driver/aesd-circular-buffer.c:29-107 | for entries of any sizes, empty ones included, a flat position is located at (command, offset) if and only if that pair has that position: the two addressing schemes are inverse to each other |
| Addressing.LocatedIffBelowTotal | aesd-char-driver/aesd-circular-buffer.c:34-53 | a position can be located exactly when it is below the total size |
| Addressing.PositionBelowTotal | aesd-char-driver/aesd-circular-buffer.c:87-107 | every valid pair names a position below the total size |
| Addressing.LocatedBytes | aesd-char-driver/aesd-circular-buffer.c:19-28 | the bytes at the located place of an entry are the bytes at the position in the concatenation of all entries |
| MachineInts.ToIntExact | aesd-char-driver/aesd-circular-buffer.c:89-106 | the `int` result is the true position modulo 2^32, and equal to it exactly when the position fits in an `int` |
| MachineInts.ToIntOfSum | aesd-char-driver/aesd-circular-buffer.c:101-106 | reducing to 32 bits at every addition gives the same as reducing once at the end |
| CircularBuffers.CircularBuffer.constructor | aesd-char-driver/aesd-circular-buffer.c:113-116 | the zeroed ring is valid and empty |
| CircularBuffers.CircularBuffer.AddEntry | aesd-char-driver/aesd-circular-buffer.c:64-85 | in place, a ring of fewer than ten entries keeps them all and returns NULL, and one of ten loses exactly the oldest and returns its buffer; `in_offs`, the cached size and the zeroed dead slots stay right |
| CircularBuffers.PushLastN | aesd-char-driver/aesd-circular-buffer.c:56-63 | stepping the bounded queue keeps it equal to the last ten elements of the whole history: up to ten nothing is lost, and then just the oldest |
| CircularBuffers.LiveReplace | aesd-char-driver/aesd-circular-buffer.c:68-82 | in a full ring the slot at `in_offs` is the oldest one, and overwriting it and turning the ring is the queue step |
| CircularBuffers.CircularBuffer.Empty | aesd-char-driver/aesd-circular-buffer.h:87 | the empty test agrees with the abstract queue |
| CircularBuffers.CircularBuffer.Full | aesd-char-driver/aesd-circular-buffer.h:88 | the full test holds exactly when adding no longer makes the queue longer |
| CircularBuffers.CircularBuffer.FindEntryOffsetForFpos | aesd-char-driver/aesd-circular-buffer.c:29-54 | on every valid ring, wrapped or full, the loop finds the located entry's slot and offset, and finds one exactly below the cached size |
| CircularBuffers.CircularBuffer.SizeStep | aesd-char-driver/aesd-circular-buffer.c:40-48 | no `size_t` sum over live entries exceeds the cached size, so none wraps |
| CircularBuffers.CircularBuffer.GetEntryFpos | aesd-char-driver/aesd-circular-buffer.c:87-107 | for a valid pair its position, reduced to an `int` as the code's sums are; -1 for any other pair |
| CircularBuffers.CircularBuffer.FindUndoesFpos | aesd-char-driver/aesd-circular-buffer.c:29-107 | on a ring whose bytes an `int` can count the two searches undo each other: a pair has a position exactly when finding that position leads back to the pair, and the result is negative exactly when the pair is out of range |
| DeviceSpec.AcceptCommits | aesd-char-driver/main.c:136-144 | a write that brings the staged bytes to a newline commits them all as one entry, of fewer than ten entries none is lost and of ten just the oldest; any other write only adds to the staged bytes |
| DeviceSpec.DeviceHoldsLastGroups | aesd-char-driver/main.c:123-145 | after any series of accepted writes the device holds the last ten groups of chunks, cut exactly after the chunks that end in a newline, and stages the unfinished group |
| DeviceSpec.GroupsConserveBytes | aesd-char-driver/main.c:123-145 | the groups and the unfinished rest are the written bytes, in order |
| DeviceSpec.GroupsEndInNewline | aesd-char-driver/main.c:139-144 | every committed entry ends in a newline and the staged bytes never do |
| DeviceSpec.Conservation | aesd-char-driver/main.c:111-152 | evicted entries, live entries and staged bytes are together exactly the accepted payloads in order, and the live entries are the last min(10, n) of the n committed ones |
| DeviceSpec.LineIsARun | aesd-char-driver/main.c:139-144 | every committed entry is an unbroken run of chunks of which only the last ends in a newline, starting where the previous run ended |
| DeviceSpec.CleanLinesIff | aesd-char-driver/main.c:139-144 | the committed entries are exactly the chunks that end in a newline if and only if no other non-empty chunk comes before one of them |
| DeviceSpec.NothingStagedIff | aesd-char-driver/main.c:136-144 | nothing stays staged exactly when after every non-empty chunk without a final newline there comes one with it |
| DeviceSpec.ChunksOfOneLine | aesd-char-driver/main.c:139-144 | data without an inner newline becomes one entry, or part of one, however it is cut |
| DeviceSpec.ChunkingIndependentIff | aesd-char-driver/main.c:139 | the pieces in which data is written do not matter exactly when no newline stands before its last byte |
| DeviceSpec.MessageIsOneLine | server/src/connection_manager.c:157-158 | a newline-free message and its newline, written in any non-empty pieces from empty staging, commit exactly that one entry |
| DeviceSpec.ReadStopsAtLineEnd | aesd-char-driver/main.c:89-104 | a read returns the next bytes of the flat contents, as many as asked for or up to the end of the entry that holds the position, whichever is less |
| DeviceSpec.ReadIsDetermined | aesd-char-driver/main.c:89-104 | only one byte string is such a read |
| DeviceSpec.ReadLength | aesd-char-driver/main.c:92 | a read is as long as asked for exactly if the entry that holds the position has so many bytes left; a shorter one ends exactly where that entry ends |
| DeviceSpec.ReadIsPrefix | aesd-char-driver/main.c:89-104 | a read returns the next bytes of the flat contents, at most as many as asked for, and none only at the end or when none are asked for |
| DeviceSpec.StreamIsContents | server/src/tcp_connection.c:126-131 | reads with any positive counts return the contents from a position on in order, and as many reads as bytes are left return all of them |
| DeviceSpec.StreamEndsAtEmptyRead | server/src/tcp_connection.c:126 | the first empty read comes exactly when everything has been returned |
| DeviceSpec.SeekContents | aesd-char-driver/main.c:163-184 | a seek succeeds exactly for an existing byte; reading then gives that entry from the offset on and all later entries |
| KernelHeap.Slab.Kfree | aesd-char-driver/main.c:131-142 | freeing requires an allocated block, so nothing is freed twice; NULL is ignored |
| Devices.Device.constructor | aesd-char-driver/main.c:256-259 | the zeroed device is valid, empty, and owns nothing |
| Devices.Device.Gather | aesd-char-driver/main.c:123-133 | a new block with the staged bytes and the new ones, or, exactly when there is no memory or the copy fails, its error with the heap as before |
| Devices.Device.Commit | aesd-char-driver/main.c:139-144 | the staged line moves into the ring, the evicted block is freed, and every block still has one owner |
| Devices.Device.Write | aesd-char-driver/main.c:111-152 | -ENOMEM, -EFAULT or the count exactly as the environment and the room decide; an accepted write is one step of the device value and of the history, a failed one changes neither device nor heap; the byte before the buffer is looked at exactly when a write of nothing, with nothing staged, gets its block |
| Devices.Device.Store | aesd-char-driver/main.c:136-145 | the filled block replaces the staging block, which is freed, and a complete line is committed |
| Devices.Device.Read | aesd-char-driver/main.c:76-109 | the bytes of the addressed entry, as many as asked for or up to its end, and the position moved by their number; -EFAULT exactly when there are bytes to copy and the copy fails, and then nothing moved |
| Devices.Device.AdjustFileOffset | aesd-char-driver/main.c:163-184 | the position becomes that of the pair exactly when the pair is valid, with no 32-bit loss; otherwise -EINVAL and no change |
| Devices.Device.Ioctl | aesd-char-driver/main.c:186-212 | the seek for its own command number, -EFAULT exactly when the argument cannot be copied, -ENOTTY for other numbers, and no change on any error |
| Devices.Device.QueueShowsLines | aesd-char-driver/aesd-circular-buffer.c:40-47 | the ring's sizes are those of the lines it shows, its cached size is their total length, and that fits in an `int` |
| Devices.Device.BytesAreConserved | aesd-char-driver/main.c:111-152 | on the device object: evicted, live and staged bytes are the accepted payloads in order, after any calls |
| Devices.Device.EachBufferHasOneOwner | aesd-char-driver/main.c:123-143 | every block ever handed out is freed, or staged, or in one slot: exactly one of these |
| Devices.Device.SlotsOwnBlocks | aesd-char-driver/main.c:281-283 | the slots hold each live block once and otherwise NULL, and what they do not hold is the staged block |
| Devices.Device.Cleanup | aesd-char-driver/main.c:270-286 | every live buffer is freed, once; what stays allocated is exactly the staged buffer, if there is one |
| Framing.Connection.ReceiveMessage | server/src/tcp_connection.c:49-102 | the loop over the doubling buffer returns the specified message or failure, closes exactly on the peer's close, keeps the index inside a buffer of 1024*2^k bytes, at most twice the bytes received, copies fewer than twice the bytes received, and overflows only where the doubled size is no `int` |
| Framing.SplitRebuilds | server/src/tcp_connection.c:67-81 | joining the segments with the delimiter and adding the tail gives the stream back |
| Framing.SplitOfJoin | server/src/tcp_connection.c:67-81 | splitting what a sender joined gives exactly the sender's messages and tail |
| Framing.CleanStream | server/src/tcp_connection.c:63-91 | on a stream that ends in a close, repeated receives return exactly the segments in order and drop only the tail |
| Framing.StreamWithError | server/src/tcp_connection.c:92-99 | a receive error drops the bytes of the unfinished line and nothing else |
| Framing.MessagesAreLines | server/src/tcp_connection.c:63-99 | whatever a connection delivers, repeated receives return exactly the segments of each run of bytes between errors, in order, and the buffer size never overflows if no line is too long |
| Framing.LinesAreDelimiterFree | server/src/tcp_connection.c:67-72 | no message contains the delimiter |
| Framing.ReceiveAll | server/src/connection_manager.c:176-178 | the loop around the calls returns exactly those messages and ends with the connection closed, unless the buffer size overflows |
| Framing.ShortLineIsReceived | server/src/tcp_connection.c:63-82 | every line of fewer than 2^30 bytes without the delimiter is returned as it was sent |
| Framing.OverflowIff | server/src/tcp_connection.c:76-80 | the `int` buffer size overflows exactly when 2^30 bytes arrive without a delimiter |
| SeekCommand.DecodeIff | server/src/connection_manager.c:127-140 | a message is a seek exactly when it is the prefix, a numeral, a comma, a numeral and then no digit, and the seek has the values of the two numerals |
| SeekCommand.DecimalIsPlaceSum | server/src/connection_manager.c:133 | any digits, leading zeros included, are read as the sum of each digit times the power of ten of its place |
| SeekCommand.DecimalAppend | server/src/connection_manager.c:133 | digits in front of others count as many times ten as there are digits behind them |
| SeekCommand.StoredIs | server/src/connection_manager.c:133 | a magnitude below 2^64 is stored modulo 2^32, negated with a minus sign; a larger one as the largest value |
| SeekCommand.CommandText | server/src/connection_manager.c:129-131 | every seek begins with the command's text |
| SeekCommand.ReadsAs | server/src/connection_manager.c:133 | after the text, "01, -1x" is read as 1 and 2^32 - 1 |
| SeekCommand.DecodePrinted | server/src/connection_manager.c:127-140 | printing a seek and decoding it gives it back, for any two 32-bit numbers |
| Protocol.PayloadIs | server/src/connection_manager.c:157 | the text before the first NUL is written, and a newline; without a NUL all of it |
| Protocol.AcceptWritten | aesd-char-driver/main.c:136-144 | the device commits a message exactly when all of it is written, and else stages what was written |
| Protocol.WriteProgress | server/src/connection_manager.c:157-158 | each device write of any size keeps the message on its way, and the last one commits exactly the message |
| Protocol.WriteFailure | server/src/connection_manager.c:157-166 | a failed write ends the message where it is, with a reply from the device as it then is or none |
| Protocol.ReadProgress | server/src/tcp_connection.c:119-134 | each read and send continues the reply that was due at the commit, and an empty read means it is complete |
| Protocol.SeekProgress | server/src/connection_manager.c:147-154 | an accepted seek puts the file where the reply begins and a refused one ends with an empty reply |
| Protocol.KeepsExclusion | server/src/connection_manager.c:189-198 | every step keeps exactly the mutex holder inside, as far as its own message allows, and nothing staged while the mutex is free |
| Protocol.StepKeepsInv | server/src/connection_manager.c:170-209 | every step of any thread keeps the whole invariant |
| Runs.EnabledIff | server/src/connection_manager.c:176-203 | in every state that a run reaches, exactly those actions are enabled that the thread's own past, a free mutex and the bytes written to the device allow |
| Runs.RunsAreLegal | server/src/connection_manager.c:176-203 | a series of actions is a run exactly when each action is allowed in that way by those before it; the device is then what the writes make of it |
| Runs.ShufflesAreRuns | server/src/connection_manager.c:176-203 | every interleaving of legal single-thread programs is a run if the mutex is taken only while it is free and replies are read out in reads of 4096 bytes, and there are no other runs |
| Runs.ServiceIsLegal | server/src/connection_manager.c:180-203 | between two messages a thread may serve the next one in any pieces and any positive number of reads, or fail to open the device, and is between two messages again |
| Runs.Independent | server/src/connection_manager.c:189-198 | no action of one thread enables or disables an action of another, except that taking the mutex keeps the others from taking it and giving it back lets them |
| Runs.ReplyIsWhatWasRead | server/src/tcp_connection.c:126-131 | a logged reply, cut or not, has exactly as many bytes as its successful reads returned |
| Serializability.Serializable | server/src/connection_manager.c:176-203 | every run of any number of threads, with failing opens, writes, seeks, reads and sends, is explained by handling the logged messages one at a time; with the mutex free the device is what that leaves; at most one thread is inside; each thread's messages keep their order; and each entry is dropped, written and cut exactly as the actions that were taken say |
| Serializability.LogIsInLockOrder | server/src/connection_manager.c:189-198 | the log serves messages in the order in which the mutex was taken |
| Serializability.SerialDevHoldsLines | aesd-char-driver/aesd-circular-buffer.c:56-63 | handling a log one by one leaves the last ten of the old lines and of what the log wrote, cut exactly after the messages that were written whole, and stages the rest |
| Fates.StepMatches | server/src/connection_manager.c:176-203 | every step keeps what is known of the holder's message in agreement with the actions, and what it logs is what they say |
| Fates.LogMatchesFates | server/src/connection_manager.c:142-203 | in every run the log and the actions agree on every message: dropped exactly when its open failed, as many bytes as were written, short exactly when a write failed, cut exactly when a noticed write, a seek, a read or a send failed |
| Fates.AllFulfilledIff | server/src/connection_manager.c:176-203 | in a run without failing actions every logged message is served, written whole and answered completely; with the mutex free, only then |
| DeviceLines.PartsOfFates | server/src/connection_manager.c:157-158 | what each message left in the device is its first bytes, as many as the actions wrote; torn exactly when a write failed after the first byte, whole exactly when something was written and no write failed |
| DeviceLines.RingHoldsLastLines | server/src/connection_manager.c:189-198 | whenever the mutex is free the device holds the last ten of the old lines and the committed ones; nothing is staged exactly when every torn message has a whole one after it; and if no write has failed, the lines are the plain messages in log order, each one client's, and nothing is staged |
| DeviceLines.LinesAreThePlainOnesIff | server/src/connection_manager.c:157-158 | with the mutex free, the committed lines are all the plain messages in log order if and only if no write has failed |
| DeviceLines.NothingLeftStagedIff | server/src/connection_manager.c:189-198 | with the mutex free, nothing is staged if and only if after every message whose write failed inside it another one was written whole |
| Serializability.EveryLineIsPartsAndAMessage | server/src/connection_manager.c:157-158 | over all runs every committed line is the beginnings of the messages whose writes failed since the line before, and then one client's whole message and its newline |
| DeviceLines.LinesAreMessagesIff | server/src/connection_manager.c:157-158 | the committed lines are exactly the messages written whole if and only if no write failed inside a message before another one was written whole; the condition is on the actions of the run |
| DeviceLines.EveryLineIsAMessage | server/src/connection_manager.c:157 | in a run whose actions meet that condition every line is exactly one client's message and its newline, as received when it has no NUL |
| Answers.PlainReply | server/src/connection_manager.c:190-192 | when no action fails for a plain message, it is served and the reply is up to nine earlier lines and then the line it completes: the device right after its own commit; that line is the message alone exactly when every earlier torn message has a whole one after it, and then as received when it has no NUL |
| Answers.SeekReply | server/src/connection_manager.c:147-192 | when no action fails for a seek, the reply is the addressed line from the offset on and all later lines of that moment, and empty when out of range |
| Answers.PrintedSeekIsServed | server/src/connection_manager.c:127-149 | in every run, a printed seek for which no action fails is answered by the line it names from its offset on and all later lines, and by nothing when out of range |
| Completion.NoDeadlock | server/src/connection_manager.c:189-198 | unless all is done some thread can move by an action that does not fail |
| Completion.StepDecreases | server/src/connection_manager.c:176-203 | every step leaves fewer stages, or as many and fewer bytes for the holder of the mutex |
| Completion.NoInfiniteRun | server/src/connection_manager.c:176-203 | there is no infinite run |
| Completion.Completes | server/src/connection_manager.c:176-203 | every run can be carried on until all is done by actions of which none fails, and every message that this adds to the log is served, written whole and answered completely, except exactly the first one when something had already failed for it |
| Completion.StreamsAreServed | server/src/connection_manager.c:176-203 | for connections that deliver any bytes and errors and a close, every run can be carried on in that way, and the log then holds of every connection exactly its lines, in order; all of them are served, written whole and answered completely if and only if no action had failed |
| Server.SendFile | server/src/tcp_connection.c:119-134 | what is sent is a prefix of the contents from the file position on, and all of it, with success, when none of the reads and sends that were made failed; with a script of its own for the sends, success exactly when none of them failed |
| Server.WriteOut | server/src/connection_manager.c:157-158 | the device takes a chunking of the bytes before the first failed write; all of the data when it fits behind what is staged and none of the calls that were made failed, and only if it fits |
| Server.HandleMessage | server/src/connection_manager.c:142-167 | the device is always what the atomic step makes of the bytes written, and without an error the file stands where its reply begins; a plain message is written whole when it fits and none of the calls that were made failed, and only if it fits; a failed write is no error when stdio's buffer holds the message until the final flush, and is one when it comes before the last buffer; a seek is an error exactly when its argument cannot be copied or it is out of range |
| Server.ChunksOfMessage | server/src/connection_manager.c:157-158 | however the written bytes of a message are cut, the device takes them as one |
| Server.CleanAfterFaultIff | server/src/connection_manager.c:157-158 | after a failed write, the unwritten bytes being discarded, the next message is stored as itself, however it is cut, exactly when no byte of the failed one was written |
| Server.ServeMessage | server/src/connection_manager.c:189-198 | the critical section has the atomic effect on the device for the bytes written and sends a part of that reply; all of both when the message fits and none of the calls that were made failed; nothing is sent after a noticed error, and all of the reply after one that the final flush hides |
| Manager.ConnectionManager.RegisterConnection | server/src/connection_manager.c:108-125 | succeeds exactly when the thread can be created; the context then goes to the front of the list, and otherwise is left unlisted |
| Manager.ConnectionManager.Destroy | server/src/connection_manager.c:83-106 | the threads are told to stop before the first is joined; if every registered thread ends, and only then, all contexts are joined and freed, newest first, each freed after it was joined, none twice and none read after it was freed; otherwise it waits for ever for the first whose thread does not end, with exactly the newer ones done |
| Links.ChainIsDetermined | server/src/queue.h:650-653 | from one first link only one sequence can be read, so the sequences below are what a traversal sees |
| Links.ChainIsAcyclic | server/src/queue.h:207-210 | a chain of links that ends has no cycle |
| TailQueue.Last | server/src/queue.h:744-745 | reading the last link as a head gives the last element, or NULL |
| TailQueue.Prev | server/src/queue.h:749-750 | the same for the predecessor of an element |
| TailQueue.Backward | server/src/queue.h:670-673 | the reverse traversal visits exactly the reversal of the forward one |
| TailQueue.Forward | server/src/queue.h:650-653 | the forward traversal visits the elements in order |
| TailQueue.InsertHead | server/src/queue.h:721-732 | the insertion at the front, with all links right |
| TailQueue.InsertTail | server/src/queue.h:734-742 | the insertion at the end |
| TailQueue.InsertAfter | server/src/queue.h:696-709 | the insertion after an element |
| TailQueue.InsertBefore | server/src/queue.h:711-719 | the insertion before an element, without the head |
| TailQueue.Remove | server/src/queue.h:752-768 | the removal; the element keeps its own links |
| TailQueue.Concat | server/src/queue.h:635-644 | the second queue's elements follow the first's and the second becomes empty |
| TailQueue.Swap | server/src/queue.h:770-785 | the heads trade their elements |
| LinkedLists.InsertBefore | server/src/queue.h:521-527 | the insertion before an element, without the head |
| LinkedLists.InsertAfter | server/src/queue.h:512-519 | the insertion after an element |
| LinkedLists.InsertHead | server/src/queue.h:529-535 | the insertion at the front |
| LinkedLists.Remove | server/src/queue.h:544-555 | the removal, without the head |
| LinkedLists.Prev | server/src/queue.h:539-542 | the predecessor, or NULL for the first element |
| LinkedLists.Concat | server/src/queue.h:467-482 | the walk to the end of the first list and the join |
| LinkedLists.Swap | server/src/queue.h:557-565 | the heads trade their elements |
| SinglyTailQueue.InsertHead | server/src/queue.h:351-355 | the insertion at the front, with the tail pointer right |
| SinglyTailQueue.InsertTail | server/src/queue.h:357-361 | the insertion at the end |
| SinglyTailQueue.InsertAfter | server/src/queue.h:345-349 | the insertion after an element |
| SinglyTailQueue.RemoveHead | server/src/queue.h:390-394 | the removal of the first element |
| SinglyTailQueue.RemoveAfter | server/src/queue.h:384-388 | the removal of the element after a given one |
| SinglyTailQueue.Remove | server/src/queue.h:370-382 | the walk to an element and its removal |
| SinglyTailQueue.Last | server/src/queue.h:363-366 | the last element, or NULL |
| SinglyTailQueue.Concat | server/src/queue.h:308-314 | the second queue's elements follow the first's |
| SinglyTailQueue.Swap | server/src/queue.h:396-407 | the heads trade their elements, and an empty one points at itself |

The list methods say in `modifies` which links they may touch, so the contents of every list that
shares none of them are unchanged.

## Left out

- Devices.Device.Write: nothing is promised after the one outcome in which the code looks at the byte before its buffer; counts are at most what the kernel passes to a driver (0x7FFFF000).
- Serializability.Serializable: bytes that stdio could not write are discarded with the error; a C library that tried them again when the file is closed would write outside the mutex.
- Answers.PlainReply: speaks of bytes handed to `send`; a short `send` counts as success in the code, and what reaches the peer is not modelled.
- Framing.Connection.ReceiveMessage: the buffer size overflow is an outcome of its own, after which nothing is claimed, because C leaves it undefined; `malloc` and `realloc` succeed.
- SeekCommand.DecodeIff: for numbers above 2^32 - 1 the conversion of a 64-bit `strtoul` is assumed; section 7.21.6.2 of ISO/IEC 9899:2011 leaves them undefined.
- Heap addresses are numbers that are never reused, and a block is changed as a whole, so pointer arithmetic outside a block is not expressible.
- `aesd_llseek` delegates to the kernel; since reads and seeks are proved from any file position, its effect on later calls is covered, its return value is not.
- `aesd_open`, `aesd_release`, device registration and the module's init and exit plumbing have no state of their own.
- Creating and destroying connections, the listening socket, signals and the daemon's start are foreign calls.
- The flag that makes threads stop between messages: a thread that stops just takes no further step.
- The timer and the plain-file mode, which the server's Makefile compiles out.
- The SLIST macros apart from those the connection manager uses, the traversal variants (FROM, SAFE), and the debugging and C++ variants of queue.h.
- Fairness of the threads' scheduling.
