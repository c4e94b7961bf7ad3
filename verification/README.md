# A bounded command log: ring, character device, stream readers, server

The repository is one stack that keeps the last ten commands written to it. A ring of ten slots
(`aesd-char-driver/aesd-circular-buffer.c`) sits inside a character device
(`aesd-char-driver/main.c`), and a threaded socket server (`server/include/utils.c`,
`server/aesdsocket.c`) writes each client's line to the device and sends the contents back. This
project models the stack layer by layer and proves what every run of it keeps.

| file | what it holds |
|---|---|
| `Bytes.dfy` | bytes, concatenation, prefix sums, and `Locate`, the flat reference form of the offset lookup |
| `Lines.dfy` | lines of a byte string, C strings, and `Echo`, what a read-back loop sends for a stream |
| `CircularBuffer.dfy` | the class `Ring` with its array, `inOffs`, `outOffs`, `full`; its invariant ties them to the history of all adds |
| `DeviceLog.dfy` | the meaning of the device as a value: commands committed so far and pending bytes; writing, reading and seeking on it |
| `CharDevice.dfy` | the class `Device`: the ring, the pending entry, the device lock and the map of live heap buffers; its methods refine `DeviceLog` |
| `StreamReaders.dfy` | descriptors as sequences of read events, the growing reader, the truncating reader, the read-back loop, and one session's critical section run on the real `Device` |
| `Protocol.dfy` | the same critical section as a single step on the device's meaning, and sessions run one at a time |
| `Sessions.dfy` | any number of session threads and the main loop as a step relation; serialisation |
| `Schedules.dfy` | the converse of serialisation: every order of serving has a run |
| `Server.dfy` | when the server gets stuck, that it otherwise finishes, and which thread records are freed and touched when |

The invariants are `CircularBuffer.Unrolls` (the ring's fields are a function of the history),
`CharDevice.Owns` (each buffer in the ring and the pending one is live, distinct, and holds its
bytes; nothing else is live), `Sessions.Inv` (the lock, the order in which it was taken, and what
each thread has sent so far) and `Server.Registered` (each thread record is listed once or freed).
`dafny verify dfyconfig.toml` checks the project. Inductive lemmas carry `{:induction false}`, so that
each induction is written out; so do a few others on which Dafny would try one in vain.

## Where the code and what is said about it differ

The model follows the code. Where a promise fails, a lemma says exactly when it holds.

- **Newline scan.** It also looks at the byte one past the data (`aesd-char-driver/main.c:214`). The
  model passes that byte in as `after`. No byte is lost whatever it is (`ByteConservation`); it
  matters exactly when it is a newline behind a write without one (`Harmless`):
  `CommitHoldsFirstNewline`, `ChunkingExact`, `WritesFramed`, `WriterGetsContents`.
- **Empty write.** A write of nothing onto nothing pending asks for a buffer of size 0, and the scan
  reads through what it gets (`aesd-char-driver/main.c:173`, `aesd-char-driver/main.c:215`). The call
  `faults` holding the device lock. A line that begins with a NUL is such a write (`FaultExample`).
- **Offset lookup.** `char_offset + 1` wraps at `SIZE_MAX`
  (`aesd-char-driver/aesd-circular-buffer.c:34`); the contract of `FindEntryOffsetForFpos` gives both
  results.
- **Seek order.** The walk counts commands by slot (`aesd-char-driver/main.c:311`), its comment from
  the output pointer (`aesd-char-driver/main.c:277-278`). `SeekAgreesExactly` gives the condition under
  which the two are the same, `SeekWrappedExample` an input on which they are not.
- **Seek range.** Command 10 passes the range test, and a command past the first unfilled slot seeks
  to the end of the data (`aesd-char-driver/main.c:290`, `aesd-char-driver/main.c:328-330`):
  `SeekPastEnd`. A successful seek returns the new offset, not zero.
- **Seek exits.** Two rejections return with the device lock held (`aesd-char-driver/main.c:317`,
  `aesd-char-driver/main.c:320`). `LockLeakExactly` names the targets. The server then hangs for
  ever: `HangExample`, `SeekHangs`, `WhyStuck` and `StuckForever`.
- **Reaping.** The scan frees a record and then reads the link to the next one out of it
  (`server/aesdsocket.c:400`, `server/aesdsocket.c:421`). The step from a freed record to the next is
  the only one that touches a freed record (`ReapingExactly`), it happens once for every look that
  finds a flag set (`FreedTouchesExactly`), and one client is enough for it (`FreedReadExample`). The
  model goes on with the link as it was before the free.
- **Cleanup.** The pending buffer is left allocated when there is one (`aesd-char-driver/main.c:558`).
- **Interrupted first read.** The loop test of `read_until_term` then looks at the byte in front of
  the buffer (`server/include/utils.c:445`, `server/include/utils.c:473`). The model passes it in as
  `before`. On a socket a misfire hands back an empty line, which is then an empty write.
- **Terminator NUL.** The notes above `read_until_term` say that it then reads to end of file
  (`server/include/utils.c:380`); the code stops after the first NUL byte (`NulExample`).
  `PromiseExactly` gives the exact condition for this promise and the one before while memory lasts.
- **`readLine` at end of file.** With nothing stored the caller's buffer is left as it was, so it is
  not terminated (`server/include/utils.c:533-535`), and this also holds when `n` is 1 and bytes were
  discarded.

## Model

| member | source | states |
|---|---|---|
| CircularBuffer.Ring.constructor | aesd-char-driver/aesd-circular-buffer.c:131-134 | An initialised ring satisfies the invariant for the empty history |
| CircularBuffer.Ring.AddEntry | aesd-char-driver/aesd-circular-buffer.c:65-126 | The history grows by the entry and the invariant still holds, so after any n adds the view is the last min(n, 10) entries, the write index n mod 10, full means n >= 10, and the read index is 0 until full and then the write index; the return value is the address of the entry pushed out, NULL when none is |
| CircularBuffer.UnrollsAdd | aesd-char-driver/aesd-circular-buffer.c:92-110 | Storing at the write index and stepping the indices keeps the fields determined by the history, across wrap-around and the moment the ring becomes full; the slot overwritten in a full ring is the oldest entry |
| CircularBuffer.RecentPush | aesd-char-driver/aesd-circular-buffer.c:56-63 | What a log bounded to ten keeps after one more entry: everything plus the new one, or all but the oldest plus the new one |
| CircularBuffer.OverwriteOldest | aesd-char-driver/aesd-circular-buffer.c:98-110 | Overwriting the oldest slot of a full ring and starting one slot later drops the oldest and appends the newest, at every position |
| Bytes.LocateExact | aesd-char-driver/aesd-circular-buffer.c:19-28 | The flat lookup answers (k, b) if and only if b lies in piece k and the pieces before it sum with b to the offset; such a pair is therefore unique, also among zero-size pieces |
| Bytes.LocateFinds | aesd-char-driver/aesd-circular-buffer.c:26-27 | The flat lookup finds something exactly when the offset is below the total size |
| CircularBuffer.Ring.FindEntryOffsetForFpos | aesd-char-driver/aesd-circular-buffer.c:29-53 | Below SIZE_MAX the scan from the write index returns the slot and byte that the flat lookup gives for the oldest-first entries, or nothing when that finds nothing; at SIZE_MAX it returns the slot at the write index although the flat lookup finds nothing |
| CircularBuffer.ScanHit | aesd-char-driver/aesd-circular-buffer.c:42-46 | The interval test of one slot accepts only the offset whose flat lookup is this slot |
| CircularBuffer.Ring.ScanIsView | aesd-char-driver/aesd-circular-buffer.c:37-40 | The scan order, write index first, is empty slots followed by the entries oldest first, in every ring that adds can produce |
| CircularBuffer.LocateSkipsCleared | aesd-char-driver/aesd-circular-buffer.c:42-48 | Empty slots in front shift the index found by their number and change nothing else |
| CircularBuffer.Ring.ScanOrder | aesd-char-driver/aesd-circular-buffer.c:37-50 | A lookup in scan order and a lookup in the oldest-first entries find the same slot and byte, or both nothing |
| CircularBuffer.Ring.PhysicalOrder | aesd-char-driver/aesd-circular-buffer.h:76-79 | A walk over the slots from 0 meets the oldest-first entries rotated by the read index, and only cleared slots after them |
| CircularBuffer.Ring.SlotHoldsEntry | aesd-char-driver/aesd-circular-buffer.h:44-52 | The k-th oldest entry is in slot (read index + k) mod 10 |
| DeviceLog.WriteAccepts | aesd-char-driver/main.c:171-244 | One write appends exactly its bytes to the accepted stream and never changes a committed command, whatever the byte past the data |
| DeviceLog.ByteConservation | aesd-char-driver/main.c:143-258 | After any run of writes, evicted bytes, then the contents, then the pending bytes are exactly the bytes copied in, in order |
| DeviceLog.RunAccepts | aesd-char-driver/main.c:143-258 | A run of writes from any state extends the accepted stream by what was written and only appends commands |
| DeviceLog.PendingHasNoNewline | aesd-char-driver/main.c:211-244 | Pending bytes hold no newline after any run that starts so |
| DeviceLog.CommitHoldsFirstNewline | aesd-char-driver/main.c:185-236 | After any run, a write commits the pending bytes and its own exactly when its own hold a newline, which is then the command's first, if and only if the byte past the data is no newline or the data hold one |
| DeviceLog.RunCommitsLines | aesd-char-driver/main.c:211-244 | All commands a run adds are single lines if and only if every write of the run is framed |
| DeviceLog.ChunkingExact | aesd-char-driver/main.c:171-244 | How a byte string is split into writes does not matter, the commands being its lines and the pending bytes its unterminated tail, if and only if each write has no newline before its last byte and no unterminated write is followed by a stray newline |
| Lines.SplitUnique | aesd-char-driver/main.c:211-244 | Lines followed by newline-free bytes are the only way to write a byte string so: cutting their concatenation gives them back |
| DeviceLog.SliceIsContents | aesd-char-driver/main.c:98-122 | A read at a position below the length is a non-empty slice of the contents there, and nothing otherwise |
| DeviceLog.SliceStaysInEntry | aesd-char-driver/main.c:108-113 | A read takes the smaller of what is asked and what is left of the one entry whose interval holds the position, so it never crosses an entry boundary |
| DeviceLog.TransferIsAccepted | aesd-char-driver/main.c:98-128 | What reaches user space, also after a partial copy, is the slice of the whole accepted stream at bytes evicted so far plus the file position |
| DeviceLog.RetryCompletes | aesd-char-driver/main.c:119-128 | A copy fault cuts a read short by exactly the bytes that faulted, and reading that many on from the new position completes it |
| DeviceLog.DrainYieldsRest | aesd-char-driver/main.c:101-128 | Reading on with any positive counts ends and yields exactly the contents from the position on |
| DeviceLog.ReadsSkipEvicted | aesd-char-driver/main.c:98-128 | Two successive reads of one open file with any writes in between are slices of the one accepted stream, and the gap between them is exactly the number of bytes evicted in between |
| DeviceLog.EvictedGrows | aesd-char-driver/main.c:223-235 | Over every run the evicted bytes and the accepted bytes only grow at their ends |
| DeviceLog.SeekLookupInverse | aesd-char-driver/main.c:272-281 | The documented seek to (cmd, off) moves to a position if and only if the lookup at that position answers (cmd, off), and every position below the length is reached by a pair |
| DeviceLog.CommandByte | aesd-char-driver/main.c:277-279 | The byte at the sum of the older commands' sizes plus the offset is that byte of that command |
| DeviceLog.SeekAgreesExactly | aesd-char-driver/main.c:306-332 | For the commands present, the shipped seek and the documented one have the same targets and refusals if and only if rotating the entry sizes by the read index leaves them unchanged; they do whenever the read index is 0. Whether a refusal leaves the device lock held is ignored here; `SeekExact` and `LockLeakExactly` count it |
| DeviceLog.SeekExact | aesd-char-driver/main.c:272-347 | For one target the shipped seek does all that is documented, the lock included, if and only if the byte is in range of both the command and the slot of that number and as many bytes lie before either, or, for a command not present, the index is above 10 |
| DeviceLog.LockLeakExactly | aesd-char-driver/main.c:313-320 | A seek returns with the device lock held if and only if its target is a byte past the command in the slot of that number, or the first slot not yet filled |
| DeviceLog.SeekPastEnd | aesd-char-driver/main.c:289-332 | For commands not present both refuse if and only if the index is above 10 or is the first missing one of a ring that is not full; without leaving the lock held only if it is above 10 |
| DeviceLog.SeekLands | aesd-char-driver/main.c:306-340 | A seek that succeeds lands on the named byte of the command in the slot of that number, or, when no command is in that slot, at the end of the data, where every read returns nothing |
| DeviceLog.SeekWrappedExample | aesd-char-driver/main.c:311-332 | After eleven commands, seeking to byte 1 of command 0 should be refused but moves to the first byte of command 1 |
| DeviceLog.SlotSumIsLength | aesd-char-driver/main.c:389-396 | Sizes summed in slot order are the length of the oldest-first contents, wherever the read index is |
| CharDevice.FixedSizeLlseek | aesd-char-driver/main.c:349-356 | A successful SEEK_SET or SEEK_END leaves a position within 0 and the size and returns it; a failed seek leaves the position alone |
| CharDevice.SeekSetReads | aesd-char-driver/main.c:349-399 | SEEK_SET is refused exactly outside 0 to the length; otherwise it returns the offset, and reading on yields the contents from there on |
| CharDevice.SeekEndReads | aesd-char-driver/main.c:349-399 | SEEK_END by -n is refused exactly when there are no n bytes; otherwise it returns the new position, and reading on yields the last n bytes |
| CharDevice.SeekCurAdds | aesd-char-driver/main.c:349-399 | SEEK_CUR moves by its offset and is refused exactly outside 0 to the length, a move by nothing apart; two moves that are granted end where one by their sum does |
| CharDevice.NoOtherSeek | aesd-char-driver/main.c:349-356 | Any other directive is refused and leaves the position alone |
| CharDevice.CommitOwns | aesd-char-driver/main.c:224-234 | Putting a fresh buffer in the ring and freeing the address pushed out keeps exactly one live buffer per command: the freed one is live, NULL never is, and no other is affected |
| CharDevice.OwnsPhysical | aesd-char-driver/main.c:550-555 | A walk over the slots meets the same distinct live buffers as the oldest-first view |
| CharDevice.Device.constructor | aesd-char-driver/main.c:488-511 | A new device owns no buffer, is unlocked and has accepted nothing |
| CharDevice.Device.NewlineFound | aesd-char-driver/main.c:211-221 | The scan reports a newline if and only if the data or the byte one past them holds one |
| CharDevice.Device.Gather | aesd-char-driver/main.c:173-205 | The new buffer holds the pending bytes followed by the copied ones, the pending entry is cleared and its buffer freed, and no other buffer changes |
| CharDevice.Device.Commit | aesd-char-driver/main.c:224-234 | The command joins the log and the buffer pushed out is freed, with exact ownership kept |
| CharDevice.Device.Settle | aesd-char-driver/main.c:211-244 | A gathered command with a newline, or a newline past it, joins the log; any other becomes the pending bytes; ownership stays exact |
| CharDevice.Device.DropEmptyPending | aesd-char-driver/main.c:183-194 | An empty pending buffer is freed and forgotten, and ownership stays exact |
| CharDevice.Device.Write | aesd-char-driver/main.c:143-258 | A successful write returns and moves the position by the bytes copied, acts on the log as `DeviceLog.Write` and extends the accepted stream by those bytes; an interrupted or failed one returns its error code and changes neither log, ring, heap nor position; a write of nothing onto nothing pending, and no other, faults with the lock held and the log unchanged; otherwise the lock is released; heap ownership stays exact in every case |
| CharDevice.Device.ReadAt | aesd-char-driver/main.c:101-122 | The slot the lookup leads to holds a live buffer whose bytes from the offset on are what the read has to deliver |
| CharDevice.Device.Read | aesd-char-driver/main.c:83-135 | A read delivers the rest of the entry at the position, bounded by the count and cut by copy faults; the position moves by what was delivered; this is the slice of the accepted stream at evicted bytes plus position |
| CharDevice.Device.TotalSize | aesd-char-driver/main.c:389-396 | The size loop yields the length of the contents in every reachable ring |
| CharDevice.Device.Llseek | aesd-char-driver/main.c:357-403 | Return value and position are those of `FixedSizeLlseek` for a file whose size is the length of the contents, which `SeekSetReads`, `SeekEndReads` and `SeekCurAdds` tell in terms of what is read next |
| CharDevice.Device.WalkTo | aesd-char-driver/main.c:306-332 | Where the slot walk stops, or that it is refused on the way, is what `SeekShipped` says, whose targets `SeekLands` and `LockLeakExactly` pin; a position it yields is within the contents |
| CharDevice.Device.AdjustFileOffset | aesd-char-driver/main.c:270-347 | Every outcome of the seek: the return value and the position are the target of `SeekShipped`, or the position stays and the error code is returned; and whether the device lock is released, with the range test before the lock |
| CharDevice.Device.Cleanup | aesd-char-driver/main.c:546-558 | Unloading frees every command buffer exactly once and leaves the pending buffer live if there is one, and nothing else |
| StreamReaders.DeviceStream | server/include/utils.c:436-452 | One-byte reads of a device file, interrupted in any pattern, deliver its bytes in order without a failure |
| StreamReaders.OneByte | aesd-char-driver/main.c:101-127 | A one-byte read delivers the byte of the contents at the position, across entry boundaries, and nothing at the end |
| StreamReaders.Fd.ReadDevice | aesd-char-driver/main.c:83-135 | Reading one byte through the modelled driver is taking the next event off the device's byte stream |
| StreamReaders.LineBuffer.Reserve | server/include/utils.c:418-434 | Doubling keeps the bytes and makes room for one more byte and the NUL; it fails exactly when the index has reached the last size granted |
| StreamReaders.LineBuffer.Finish | server/include/utils.c:479-490 | The string handed back holds the bytes and ends in NUL, shrunk or not |
| StreamReaders.FillOnce | server/include/utils.c:436-473 | One round takes one read result, and what it leaves is one of: more to read, terminator found, end of file, given up, each with its flag |
| StreamReaders.ReadUntilTerm | server/include/utils.c:399-494 | Flag, buffer and remaining stream for every pattern of interrupts, failures and memory: the stream through the first terminator, or to end of file; the buffer is NUL-terminated and its index below the capacity; the largest size asked for, on every exit, is exactly what the last byte asked for needs or the first size refused, and growth copies less than that |
| StreamReaders.CapacityBound | server/include/utils.c:417-434 | The size that byte `last` needs is at most max(128, 2 last + 2), and it fits an int if and only if `last` is below 2^30 - 1 |
| StreamReaders.PeakBound | server/include/utils.c:402-434 | On every exit the size asked for is within twice the bytes asked for, and with memory to spare and no misfire the int that holds it does not overflow if and only if no byte from index 2^30 - 1 on is asked for |
| StreamReaders.PromiseExactly | server/include/utils.c:368-393 | With memory to spare a call returns what its description promises, to end of file for the terminator NUL, if and only if the first read is not interrupted in front of a byte equal to the terminator and, for NUL, a NUL in the stream is its first and its last byte and no read fails |
| StreamReaders.FlagsAsDocumented | server/include/utils.c:387-393 | Without a misfire the flag tells the end the call came to: 0 a buffer with the terminator, 1 no memory at first, 2 none later, 3 a failing read, 4 the end of an empty stream, 5 a buffer with all of the stream and no terminator |
| StreamReaders.NulExample | server/include/utils.c:380-473 | For the bytes 0 and 1 and the terminator NUL the code returns the first byte and promises both |
| StreamReaders.PiecesConcatenate | server/include/utils.c:399-494 | For any sequence of calls that each hand back a buffer, whatever the interrupts, flags and terminator, the buffers and what is still unread concatenate to the stream |
| StreamReaders.CallsYieldLines | server/include/utils.c:153-199 | Calls made to the end of an unbroken stream, none short of memory, hand back exactly the stream's lines and then its unterminated tail if there is one, if and only if no call misfires |
| StreamReaders.ReadLine | server/include/utils.c:509-552 | Stores the first n - 1 bytes of the line, consumes all of it, returns the number stored, rejects a missing buffer without reading, and terminates the buffer except at end of file with nothing stored |
| StreamReaders.Keep | server/include/utils.c:540-543 | One more byte is stored if fewer than n - 1 are, and dropped otherwise |
| StreamReaders.ReadersAgree | server/include/utils.c:499-552 | On the same stream the truncating reader stores the first n - 1 bytes of what the growing reader returns, and both leave the same bytes unread |
| StreamReaders.ReadersFail | server/include/utils.c:499-552 | Where the growing reader hands back no line for want of one, the truncating reader returns -1 on a failing read and 0 with nothing stored at end of file |
| StreamReaders.SendBack | server/include/utils.c:150-199 | The loop sends the complete lines as C strings up to the first that does not fit the memory granted, and sets the success flag exactly when it ends inside a line that fits with no failing read; a misfire of the first read ends it with nothing sent |
| StreamReaders.RoundOutcome | server/include/utils.c:155-195 | Each flag of one call tells what is left to send: one line less with flag 0, nothing more with any other, and a returned buffer only with flag 5 |
| StreamReaders.AmpleEcho | server/include/utils.c:153-199 | With memory for all of it the loop sends every line of the stream and ends at its tail |
| StreamReaders.ReceivedLine | server/include/utils.c:48-66 | With enough memory and no failing read, what the reader hands back for a client's socket is the line of the client model, and nothing exactly when the model serves no line |
| StreamReaders.ServeLine | server/include/utils.c:103-215 | Run on the modelled device, with interrupted, failed or short writes, interrupted seeks, bounded memory and interrupted reads: what the section does to log and lock, where it starts to read back, what it sends and whether it succeeds; it does not come to its end exactly when the device lock was left held |
| StreamReaders.SectionIsProtocol | server/include/utils.c:103-215 | When its calls go smoothly and memory suffices, the section's reply and success flag are those of the single step `Protocol.Effect` and `Protocol.Reply`, unless its first read misfires, and then it sends nothing |
| StreamReaders.SmoothSection | server/include/utils.c:103-148 | When no call of the section is interrupted, fails or is cut short, its effect and start position are those of the single step |
| Protocol.TagSpelled | server/include/utils.c:73 | The tag's bytes are those of AESDCHAR_IOCSEEKTO |
| Protocol.DigitExactly | server/include/utils.c:88-97 | A number below 10 comes from exactly the digit that shows it; a byte below '0' or above 127 wraps to a number within 176 of 2^32 |
| Protocol.ParseExactly | server/include/utils.c:73-99 | A line is a seek if and only if it has 23 bytes and begins with the tag; a command or byte number below 10 is the digit at position 19 or 21; any other line is written up to its first NUL, and nothing of that is dropped |
| Protocol.SeekFromInput | server/include/utils.c:73-99 | A client that sends the tag, two digits x and y as AESDCHAR_IOCSEEKTO:x,y and a newline asks for command x and byte y, whatever follows |
| Protocol.RequestFromInput | server/include/utils.c:59-120 | Without a misfire a client's line is its input up to and including the first newline, or all of it; no line is served exactly when the input is empty; what is written is the line, up to its first NUL |
| Protocol.EffectBlocks | server/include/utils.c:116-148 | After a session the device lock is held if and only if it was before, or the request is a seek to a target that keeps it, or an empty text with nothing pending; the log is then unchanged |
| Protocol.CompletesExactly | server/include/utils.c:103-215 | A session gets through if and only if all before it did and its request does not block on what they left |
| Lines.EchoIsLinePrefix | server/include/utils.c:153-199 | Without NULs, what the loop sends is the longest newline-terminated prefix of the stream |
| Protocol.SeekInContents | aesd-char-driver/main.c:306-340 | A shipped seek that succeeds stays within the contents, so the lseek it ends in cannot fail |
| Protocol.SerialIsRun | server/include/utils.c:116-148 | Sessions run one after another leave the log that their writes alone would leave: seek sessions, even refused ones, and sessions that block or fault change neither commands nor pending bytes |
| Protocol.WritesFramed | server/include/utils.c:59-120 | The server's writes are all framed if and only if no stray newline follows a write without one |
| Protocol.SerialNulFree | server/include/utils.c:280-303 | No NUL ever reaches the device through the server |
| Protocol.ReplyIsLinePrefix | server/include/utils.c:141-199 | After any earlier sessions, a session's reply is the longest newline-terminated prefix of the contents from its start position on, right after its own write or seek |
| Protocol.WriterGetsContents | server/include/utils.c:116-199 | For a writing client that gets through: the commands are the lines of all that was written if and only if no stray newline follows a write without one, and then it is sent all of the contents; it is sent all of them if and only if they are empty or end in a newline |
| Protocol.AcceptedIsSent | server/include/utils.c:59-130 | When all sessions get through, the bytes the device has accepted are exactly the NUL-free lines the clients sent, seeks apart, in the order served |
| Protocol.SeekGetsRest | server/include/utils.c:73-199 | A seek session with a valid target that is shipped to the same place, which in a ring that has not wrapped is every one, leaves the device as it was and is answered with the newline-terminated part of the contents from that byte on |
| Protocol.SeekLineGetsRest | server/include/utils.c:73-199 | The same told from the client's bytes: sending the digits of a command and of a byte in it is answered from that byte of that command on |
| Protocol.SeekReply | server/include/utils.c:141-199 | A seek session that gets through leaves the device as it was and is sent the contents from its byte on, counted by slot; nothing, when no command is in that slot; all of them, when the number is above 10 |
| Sessions.LockStep | server/include/utils.c:105 | Taking the lock keeps at most one thread in the section, the last one in the lock order |
| Sessions.UnlockStep | server/include/utils.c:209 | Releasing the lock leaves no thread in the section |
| Sessions.EffectReply | server/include/utils.c:116-148 | After its write or seek a thread is still on the way to the reply it would get in the serial run |
| Sessions.PieceReply | server/include/utils.c:153-199 | Each round of the read-back loop moves one line from what is still to be sent to what has been sent, until the two together are the serial reply |
| Sessions.InvPreserved | server/include/utils.c:38-222 | Every step of every thread and of main keeps the invariant: lock discipline, device equal to the serial run, replies on their way to the serial replies |
| Sessions.InvAlways | server/include/utils.c:38-222 | The invariant holds after every interleaving |
| Sessions.SessionsSerialise | server/include/utils.c:103-215 | For any clients and any interleaving the device is as if the sessions had run one at a time in lock order, no session takes the lock twice, and every session past its section has sent exactly its reply in that serial run |
| Sessions.AcceptedOverRuns | server/include/utils.c:59-215 | In every interleaving without a leaked lock the accepted bytes are exactly the NUL-free lines that the clients sent, seeks apart, in the order in which their sessions took effect |
| Sessions.FlagsExactly | server/include/utils.c:159-220 | A thread that took the lock has its success flag set exactly from the end of its read-back on when that ended inside a line, and otherwise from after the unlock on; its completion flag is set last |
| Sessions.UnservedExactly | server/include/utils.c:59-66 | A thread that has not had the lock has sent nothing and set no success flag; past receiving it waits if its client sent something and is at its end if it did not |
| Schedules.EveryOrderRuns | server/include/utils.c:38-222 | For any clients, any of them can be served in any order as long as each of these sends a line and gets through: there is a run in which they take the lock in that order and end, and its device is the serial one |
| Schedules.AllArrive | server/aesdsocket.c:328-425 | Any number of clients can arrive before any is served, with main back at accepting |
| Sessions.ReplyIsOwnSnapshot | server/include/utils.c:103-215 | In every interleaving a session past its section has sent the longest newline-terminated prefix of the contents as they were right after its own write or seek, from its start position on |
| Server.StuckStep | server/include/utils.c:116-155 | A step taken while the server is stuck is not the owner's and changes neither device, lock, order nor any reply |
| Server.StuckForever | server/include/utils.c:116-155 | Once the server hangs on the device lock or its owner is in a faulting write, no continuation changes the device, the lock, the order or any reply |
| Server.WhyStuck | server/include/utils.c:103-155 | While the lock is owned, the server hangs if and only if the owner is past a seek that, on the commands the earlier sessions left, is to a byte past the command in that slot or to the first unfilled slot; it is in a faulting write if and only if the owner is past writing an empty text with nothing left pending |
| Server.StuckSendsNothing | server/include/utils.c:103-155 | A session that gets stuck has sent nothing, as in the serial run |
| Server.SeekHangs | aesd-char-driver/main.c:313-320 | The step that seeks, or writes, leaves the server hung, or faulted, if and only if its target or text is one of those |
| Server.HangExample | aesd-char-driver/main.c:315-317 | One client that sends AESDCHAR_IOCSEEKTO:0,0 and a newline hangs a fresh server in four steps |
| Server.FaultExample | aesd-char-driver/main.c:173-215 | One client that sends a NUL and a newline makes the driver of a fresh server fault in four steps |
| Server.OwnerMoves | server/include/utils.c:103-215 | The owner of the lock can take its next step if and only if the server is not stuck |
| Server.ThreadMoves | server/include/utils.c:38-222 | A thread that has not ended can take its next step if and only if it is not waiting for a lock that is owned and is not itself the owner of a stuck server; receiving and leaving need no lock |
| Server.DeadlockFree | server/include/utils.c:38-222 | While a thread has not ended, some thread can take its next step, unless the server is stuck, and then its owner cannot |
| Server.SomeoneMoves | server/aesdsocket.c:328-468 | Unless the server is stuck, or main has exited and every thread has ended, some step other than a new client is possible |
| Server.StepDown | server/include/utils.c:38-222 | Every step of a thread or of main, a new client apart, brings the server closer to its end, measured by steps and bytes left |
| Server.Finishes | server/aesdsocket.c:328-468 | Once no more clients come, and the stop signal does, every way of scheduling threads and main that takes a step whenever there is one ends with main exited, every session ended and every record freed, or with the server stuck |
| Server.RegisterKeeps | server/aesdsocket.c:362-391 | A new record is listed once and the counts stay balanced |
| Server.FreeKeeps | server/aesdsocket.c:412-422 | Removing and freeing a joined thread's record keeps every record listed once or freed once |
| Server.ThreadKeeps | server/include/utils.c:162-221 | No step of a thread, including the early success flag, disturbs the registry |
| Server.RegisteredPreserved | server/aesdsocket.c:362-468 | Every step keeps: listed once or freed, freed only after the thread ended, added equals removed plus listed |
| Server.ReapingExactly | server/aesdsocket.c:399-468 | In every interleaving a record is freed once, by a step that touches it, and only after its thread has ended, although main may act on the success flag while the thread still runs; the counts balance; when main exits every record has been freed; and a step touches a freed record if and only if it is the scan's step from the record it has just freed |
| Server.ScanVisits | server/aesdsocket.c:399-424 | Over any run without a new client, what has been looked at and what is still to be looked at are the records of the scan, in order; what has been reaped or is due is what was found flagged; and nothing else is freed before main unwinds |
| Server.ScanComplete | server/aesdsocket.c:376-424 | After a new client main comes back to accepting only when it has looked at every listed record once, the new one first; it has then freed exactly those it found flagged, and the others are still listed |
| Server.FreedTouchesExactly | server/aesdsocket.c:399-424 | In every run the steps that touch a freed record are as many as the looks that found a flag set and that main has gone on from, so a run is free of them if and only if there is no such look |
| Server.FreedReadExample | server/aesdsocket.c:400-421 | One client that closes without sending a line leads main, in six steps, to reading the link of a record it has freed |

## Left out

- CharDevice.Device.Write: what the kernel does with a thread whose write has faulted is not modelled, the call only does not come back; the `int` index of the newline scan is not bounded.
- CharDevice.FixedSizeLlseek: stands for a kernel function whose text is not part of the repository; the file-size limit of the file system is not modelled.
- CircularBuffer.Ring.FindEntryOffsetForFpos: `total_byte_count` is unbounded, since the buffers it counts are live allocations.
- StreamReaders.ReadUntilTerm: the capacity is an unbounded integer; `PeakBound` says when it leaves the range of `int`. After an interrupted first read only the one byte in front of the buffer is modelled, as a value that stays the same while the call lasts.
- StreamReaders.SendBack: send succeeds, and the allocator grants the same to every call of one loop.
- StreamReaders.ServeLine: open, close and send succeed and the ioctl argument is copied; the contents with the pending bytes and the line stay below the largest file position.
- StreamReaders.Fd.ReadDevice: a signal at end of file is delivered like any other; failing reads exist for sockets only.
- Sessions.SessionsSerialise: thread start, allocation, locking, write and send succeed, and the first read of a read-back does not misfire (`SectionIsProtocol` says what is sent if it does); a client's line is received in one step, an interrupted first read in front of a newline being part of the client; the fields of a descriptor are part of the thread.
- Server.ReapingExactly: the link read out of a freed record is the one it held before the free, and freed memory is not reused. The list is a sequence with a cursor and the main loop a step relation, because its steps interleave with those of the threads; linked nodes and their addresses are not modelled.
- A received `char` is taken as signed, which decides the value of seek digits above 127.
- The entry structures allocated for a write and for the pending entry are values; only data buffers are in the heap map. A buffer holds its initialised bytes only.
- Buffers that a session allocates and never frees (the line of a seek request, the unterminated tail of a read-back).
- Module load, device registration, open, release, ioctl number decoding and logging.
- Socket set-up, daemon mode, signal handling beyond the stop of the main loop, and the file back end with its timer thread, which the device switches off.
- The time arithmetic helpers, the older driver `aesd-char-driver/main_20260507.c`, and the other programs of the repository.
