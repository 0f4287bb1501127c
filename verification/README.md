# Verification of the Ticos daemon

Dafny models of the daemon's core, with proofs: the file-backed transmit queue, the loop that sends what is queued,
the CBOR encoder and the metadata note built on it, the streaming transformation of core dumps, the rate limiter and
the layered configuration. `dafny verify dfyconfig.toml` checks everything.

## How the project is built

Objects that the C code changes in place are classes over arrays and fields (`Queue.Queue`, `Cbor.Encoder`,
`ElfWriter.Writer`, `ElfReader.Reader`, `Transformer.Transformer`, `RateLimiter.RateLimiter`, `Config.Config`). Each
method is proved against a function on plain values, and the lemmas are about those functions.

* **Transmit queue.** `QueueFormat` is the byte layout and the checks on it; `QueueSteps` gives the three operations as
  steps on the bytes and pointers; `QueueMeaning` says what they do to single bytes and pointers in any state,
  `Crc8Remainder` what the checksum is. `QueueLayout` says where messages lie. `QueueReading` and `QueueWriting` prove
  what one read or write does to the layout, `QueueFifo` that whole runs refine a list that drops its oldest entries,
  `QueueDisorder` what is read after a write that does not, `QueueRestart` and `QueueLaps` that the pointers are found
  again. `Queue` is the handle, `Transmit` its user.
* **CBOR and notes.** `CborFormat` holds items, encoding and a decoder; `Cbor` the encoder and its sink; `ElfNote` and
  `Metadata` the note.
* **Core dumps.** `ElfIo` has streams whose answers are scripted: short, interrupted, failed. `ElfLayout` has the plan
  and the file; `ElfWriter`, `ElfReader` and `Transformer` the three components.

## Where the queue's code departs from its comments

The code is modelled as written. Its comments promise a queue that drops its oldest messages (queue.c:35-41 and
queue.c:477-483) and a search that terminates (queue.c:244). Both need conditions:

* A write keeps the promise exactly when it is `Legal` (`QueueFifo.WriteIsFifoIffLegal`). That is: nothing is unread;
  or the queue is not full and wraps only with `0 < read_ptr < write_ptr`; or everything unread is covered. In addition
  the word at the new write pointer holds neither an END marker nor a valid unread message, and the head of a queue
  that is then full does not end on the buffer's last byte. A look at that one word before the call is enough
  (`QueueLaps.LegalByOneWord`). `QueueDisorder` says for a full queue, a wrap with the oldest message in word 0 and a
  second wrap which message is the head afterwards. `QueueLimits` has an input for each way to fail: these three, a
  landing on an END marker, one on bytes that look unread, and a message that ends on the last byte.
* A restart finds the same pointers exactly when `Recoverable` holds (`QueueRestart.RestartExact`): the bytes beyond the
  messages are clear (`RestartClear`), and no message ends on the buffer's last byte, except one that fills the buffer
  from word 0 on. It keeps the list exactly then or when nothing was unread and the scan comes to nothing unread
  either (`QueueFifo.RestartKeepsListIff`). `QueueLimits.RestartLosesFlushMessage` and
  `QueueLimits.RestartReordersFullQueue` are inputs for the two ways to fail.
* The backward walk ends exactly when it ends within as many hops as the buffer has words
  (`QueueRestart.WalkEndsWithinBuffer`); `QueueLimits.StartupCanHang` is a file on which it does not.
* A write into a full queue that was read but not completed leaves the permission to complete standing although the
  message is gone; `Disarms` says exactly when that does not happen (`QueueFifo.PermissionFollowsHead`), and
  `QueueLimits.PermissionOutlivesMessage` is an input where it does.

Operations hold the queue's mutex throughout, so a run is any interleaving of whole operations.

## Model

| member | source | states |
|---|---|---|
| Crc8.Compute | meta-ticos/recipes-ticos/ticosd/files/ticosd/src/queue.c:94-107 | The byte loop with its inner shift loop computes the checksum of the data, byte by byte from the left. |
| Crc8.ChecksumIsXorLinear | meta-ticos/recipes-ticos/ticosd/files/ticosd/src/queue.c:94-107 | For any two payloads of equal length, the checksum of their XOR is the XOR of their checksums. |
| Crc8.SingleByteCorruption | meta-ticos/recipes-ticos/ticosd/files/ticosd/src/queue.c:94-107 | For any payload length, replacing one byte leaves the checksum as it is exactly when the byte is the same or differs by 0x91. |
| Crc8.ChecksumBelow | meta-ticos/recipes-ticos/ticosd/files/ticosd/src/queue.c:94-107 | No payload has a checksum with the top bit set. |
| Crc8Remainder.ChecksumIsRemainder | meta-ticos/recipes-ticos/ticosd/files/ticosd/src/queue.c:94-107 | The checksum of any payload is the remainder of its polynomial times x^7 on division by x^7 + x^3 + 1, eight coefficients to a byte, lowest bit first: defined by long division on lists of bits, without registers or shifts. |
| Crc8Remainder.ChecksumOfOne | meta-ticos/recipes-ticos/ticosd/files/ticosd/src/queue.c:94-107 | The payload of one byte 1 has the checksum 0x41. |
| QueueFormat.RoundUpCovers | meta-ticos/recipes-ticos/ticosd/files/ticosd/src/queue.c:109-111 | Rounding up to words in 32-bit arithmetic covers the size exactly for sizes up to 2^32 - 4; above, it wraps. |
| QueueFormat.NextMessage | meta-ticos/recipes-ticos/ticosd/files/ticosd/src/queue.c:121-134 | The message after another is strictly further on and inside the buffer, or word 0. |
| QueueFormat.StoredNext | meta-ticos/recipes-ticos/ticosd/files/ticosd/src/queue.c:121-134 | After a stored message comes the word it ends at, or word 0 if that is the buffer's end or an END marker. |
| QueueFormat.StoredFields | meta-ticos/recipes-ticos/ticosd/files/ticosd/src/queue.c:63-71 | Reading the header and payload at a stored message's word gives back its magic, version, checksum, flag, back-link, size and bytes. |
| QueueFormat.StoredPadding | meta-ticos/recipes-ticos/ticosd/files/ticosd/src/queue.c:510-515 | The bytes between a payload and the next word are zero. |
| QueueFormat.StoredValidity | meta-ticos/recipes-ticos/ticosd/files/ticosd/src/queue.c:142-174 | The code finds a stored message valid exactly when it does not end on the very last byte of the buffer, and finds it read exactly when it was marked. |
| QueueFormat.CorruptionIsNoticed | meta-ticos/recipes-ticos/ticosd/files/ticosd/src/queue.c:160-174 | A stored message with one payload byte replaced is still taken for valid exactly when the byte is the same or differs by 0x91. |
| QueueFormat.EndIsNeverValid | meta-ticos/recipes-ticos/ticosd/files/ticosd/src/queue.c:77-81 | An END marker is never a valid message, whatever bytes follow it. |
| QueueMeaning.MessageBytes | meta-ticos/recipes-ticos/ticosd/files/ticosd/src/queue.c:63-71 | A message byte by byte, in literals: 0xA5, 0x01, the remainder as checksum, the flags, little-endian back-link and size, the payload, and zeros up to the next word. |
| QueueMeaning.ValidByBytes | meta-ticos/recipes-ticos/ticosd/files/ticosd/src/queue.c:142-174 | For any bytes: what makes a message valid, and what makes it unread, said of single bytes. |
| QueueMeaning.NextByBytes | meta-ticos/recipes-ticos/ticosd/files/ticosd/src/queue.c:109-134 | For any bytes: the next message's word by the size field, with the 32-bit rounding, the end of the buffer and the END marker in literals. |
| QueueReading.UnreadNext | meta-ticos/recipes-ticos/ticosd/files/ticosd/src/queue.c:121-134 | From each unread message the code finds the next unread one, across the wrap too, and from the last one the write pointer, or word 0 when an END marker is there. |
| QueueReading.TakeKeepsShape | meta-ticos/recipes-ticos/ticosd/files/ticosd/src/queue.c:415-434 | Completing a read keeps the whole layout: tiling of the buffer, stored bytes, flags, back-links, and all three pointers. |
| QueueReading.StuckAtMarker | meta-ticos/recipes-ticos/ticosd/files/ticosd/src/queue.c:415-434 | With an END marker at the write pointer, the last completed read goes past the empty state: the queue does not read as empty. |
| QueueReading.DrainsIffClean | meta-ticos/recipes-ticos/ticosd/files/ticosd/src/queue.c:382-434 | Reading and completing until nothing is left hands out exactly the unread messages in order, and then reports the queue empty, exactly when the word at the write pointer is clean and the head of a full queue is visible. |
| QueueWriting.AdvanceDrops | meta-ticos/recipes-ticos/ticosd/files/ticosd/src/queue.c:481-492 | The walk past overwritten messages stops at the first message that starts at or after the end of the new one, and at 0 when there is none. |
| QueueWriting.WriteKeepsShape | meta-ticos/recipes-ticos/ticosd/files/ticosd/src/queue.c:445-524 | An orderly write, or one that covers everything unread, keeps the whole layout. |
| QueueWriting.UnreadAfterWrite | meta-ticos/recipes-ticos/ticosd/files/ticosd/src/queue.c:445-524 | After such a write the unread messages are the old ones without the oldest dropped ones, followed by the new one, whose back-link is the previous message's pointer. |
| QueueMeaning.ReadHeadMeans | meta-ticos/recipes-ticos/ticosd/files/ticosd/src/queue.c:382-407 | In any state, orderly or not: nothing is read exactly when the pointers meet at no valid unread message, and else the bytes that the header at the read pointer says; nothing but the permission changes. |
| QueueMeaning.CompleteMeans | meta-ticos/recipes-ticos/ticosd/files/ticosd/src/queue.c:415-434 | In any state: refused without permission; else the lowest bit of one flags byte is set, no other byte changes, and the read pointer goes to the next message. |
| QueueMeaning.WriteAcceptsIff | meta-ticos/recipes-ticos/ticosd/files/ticosd/src/queue.c:445-460 | In any state: a write is refused exactly when there is nothing to write or the message has more bytes than the buffer, and then changes nothing. |
| QueueMeaning.WriteBytesMean | meta-ticos/recipes-ticos/ticosd/files/ticosd/src/queue.c:462-520 | In any state: where the message goes, where the END marker goes, that every other byte stays, and the new write and previous pointers. |
| QueueMeaning.AdvanceMeans | meta-ticos/recipes-ticos/ticosd/files/ticosd/src/queue.c:484-492 | Skipping follows a path of messages to the first at or beyond the limit, or to word 0. |
| QueueMeaning.WritePointersMean | meta-ticos/recipes-ticos/ticosd/files/ticosd/src/queue.c:463-497 | In any state: the read pointer and the permission after a write, in the three cases of pointers that meet, a message that covers the head strictly behind its own start, and all others. |
| QueueFifo.DroppedAreCovered | meta-ticos/recipes-ticos/ticosd/files/ticosd/src/queue.c:465-497 | The messages dropped are exactly those whose header word the message or the END marker covers, and they are the oldest. |
| QueueFifo.DisorderlyFails | meta-ticos/recipes-ticos/ticosd/files/ticosd/src/queue.c:465-497 | From any other state, however many of the oldest messages the write covers, older messages remain and the read pointer is not at the oldest of them. |
| QueueDisorder.NewComesFirst | meta-ticos/recipes-ticos/ticosd/files/ticosd/src/queue.c:476-481 | A write into a full queue, or one that wraps with the oldest message in word 0, makes the new message the head; the permission stays. |
| QueueDisorder.SecondWrapBelowHead | meta-ticos/recipes-ticos/ticosd/files/ticosd/src/queue.c:465-497 | A second wrap that ends at or before the read pointer leaves the oldest unread message at the head, unchanged, and the permission as it was. |
| QueueDisorder.SecondWrapOverHead | meta-ticos/recipes-ticos/ticosd/files/ticosd/src/queue.c:465-497 | A second wrap beyond the read pointer makes the head the first message before the wrap that starts behind the new one, or the new one in word 0 if there is none; the permission is gone. |
| QueueFifo.WriteIsFifoIffLegal | meta-ticos/recipes-ticos/ticosd/files/ticosd/src/queue.c:445-524 | A write turns what the queue delivers into a suffix of it, without exactly the covered messages, followed by the new message, if and only if it is legal. |
| QueueFifo.PermissionFollowsHead | meta-ticos/recipes-ticos/ticosd/files/ticosd/src/queue.c:481-497 | After a write, completing is still permitted exactly when it was and nothing was dropped, if and only if the write does not drop a handed-out message from a full queue or by wrapping without noticing. |
| QueueFifo.CompletionIsExact | meta-ticos/recipes-ticos/ticosd/files/ticosd/src/queue.c:415-434 | Completing marks only the oldest unread message: one flags byte changes, every other message stays stored and unread, and the invariant holds. |
| QueueFifo.StepKeepsGood | meta-ticos/recipes-ticos/ticosd/files/ticosd/src/queue.c:382-524 | Every allowed write, read, completion and restart keeps the invariant. |
| QueueFifo.StepMatchesFifo | meta-ticos/recipes-ticos/ticosd/files/ticosd/src/queue.c:382-524 | Every allowed operation answers as the list of unread payloads does, and changes it as the list changes. |
| QueueFifo.RunRefinesFifo | meta-ticos/recipes-ticos/ticosd/files/ticosd/src/queue.c:382-524 | Every run of allowed operations, restarts included, is a run of a first-in first-out list that drops its oldest entries. |
| QueueFifo.RunFromFreshRefinesFifo | meta-ticos/recipes-ticos/ticosd/files/ticosd/src/queue.c:282-336 | The same for every run that starts from a zero-filled buffer. |
| QueueFifo.RunFromFileRefinesFifo | meta-ticos/recipes-ticos/ticosd/files/ticosd/src/queue.c:282-336 | The same for every run that starts from any file in which the scan comes to nothing unread. |
| QueueFifo.CompletedIsLatestRead | meta-ticos/recipes-ticos/ticosd/files/ticosd/src/queue.c:402-434 | Over any events of the list: a completion that succeeds removes exactly the message that the latest read before it handed out, and since then no write has dropped a message, nothing was completed and the queue was not restarted. |
| QueueFifo.RestartKeepsListIff | meta-ticos/recipes-ticos/ticosd/files/ticosd/src/queue.c:181-250 | What the queue delivers is the same after a restart if and only if the restart finds the pointers, or nothing was unread and the scan comes to nothing unread. |
| QueueRestart.WalkEndsWithinBuffer | meta-ticos/recipes-ticos/ticosd/files/ticosd/src/queue.c:228-245 | The backward walk ends at all exactly when it ends within as many hops as the buffer has words. |
| QueueRestart.StartupOnAnyContents | meta-ticos/recipes-ticos/ticosd/files/ticosd/src/queue.c:181-250 | Whatever the file holds, pointers that are found lie in the buffer, and the read pointer is the write pointer or names a valid unread message. |
| QueueRestart.ScanIffClear | meta-ticos/recipes-ticos/ticosd/files/ticosd/src/queue.c:197-225 | In any good state the forward scan stops at the write pointer, with the right previous message, exactly when it finds nothing to go on to there. |
| QueueRestart.WalkIffBlocked | meta-ticos/recipes-ticos/ticosd/files/ticosd/src/queue.c:228-245 | After a wrap the backward walk ends at the read pointer exactly when that message's back-link names itself or no valid unread message, and no message on the way ends on the buffer's last byte. |
| QueueRestart.RestartExact | meta-ticos/recipes-ticos/ticosd/files/ticosd/src/queue.c:181-250 | From any good state a restart finds all three pointers again from the bytes alone if and only if the bytes beyond the stored messages are clear and no message ends on the buffer's last byte, unless it fills the buffer. |
| QueueRestart.FoundIsGood | meta-ticos/recipes-ticos/ticosd/files/ticosd/src/queue.c:181-250 | Any file in which the scan comes to nothing unread gives an empty queue in which the whole invariant holds, whatever else the file contains. |
| QueueMeaning.ScanMeans | meta-ticos/recipes-ticos/ticosd/files/ticosd/src/queue.c:192-225 | On any file: the scan meets read messages and then unread ones, each after the one before, until the end, no valid message, or a read one behind an unread one; the pointers are the first unread one, that place, and the last message met. |
| QueueMeaning.WalkMeans | meta-ticos/recipes-ticos/ticosd/files/ticosd/src/queue.c:228-245 | On any file on which it ends: the walk follows back-links through valid unread messages, to word 0 or to a link that names itself or no such message. |
| QueueMeaning.RecoverMeans | meta-ticos/recipes-ticos/ticosd/files/ticosd/src/queue.c:227-249 | On any file on which it ends: the walk is made exactly when the scan found the head in word 0 and stopped elsewhere, and changes the read pointer only. |
| QueueLaps.CleanByOneWord | meta-ticos/recipes-ticos/ticosd/files/ticosd/src/queue.c:129-132 | A look at one word decides that a write lands cleanly: no END marker, and no unread header unless it is the oldest message's own. |
| QueueLaps.LegalByOneWord | meta-ticos/recipes-ticos/ticosd/files/ticosd/src/queue.c:445-524 | A look before the write at the word where it is going to land is enough for the write to be legal. |
| QueueLaps.FirstLapRuns | meta-ticos/recipes-ticos/ticosd/files/ticosd/src/queue.c:197-250 | As long as everything written fits once, every interleaving of writes, reads and restarts is legal, and a restart after it finds the pointers: empty, all read and exactly full included. |
| QueueLaps.RestartAfterWrap | meta-ticos/recipes-ticos/ticosd/files/ticosd/src/queue.c:228-245 | After a wrap, when the read message before the oldest unread one is still there and the write pointer is not at an unread header, a restart finds the pointers exactly when no unread message before the wrap ends on the buffer's last byte. |
| QueueLimits.FullQueueReorders | meta-ticos/recipes-ticos/ticosd/files/ticosd/src/queue.c:476-480 | There is a reachable full queue in which a write that covers one of two messages makes its own message the head, before the older one that remains. |
| QueueLimits.WrapOntoWordZeroReorders | meta-ticos/recipes-ticos/ticosd/files/ticosd/src/queue.c:465-481 | There is a reachable queue that is not full and whose oldest unread message lies in word 0, in which a write that wraps does the same. |
| QueueLimits.SecondWrapLosesNewer | meta-ticos/recipes-ticos/ticosd/files/ticosd/src/queue.c:465-481 | There is a reachable wrapped queue in which a write that wraps again covers the newer of two messages, while the older one stays at the head. |
| QueueLimits.StaleBytesAreDelivered | meta-ticos/recipes-ticos/ticosd/files/ticosd/src/queue.c:129-132 | There is a reachable queue and an orderly write that ends at bytes of an old payload that look like an unread message, after which the queue does not deliver what it should. |
| QueueLimits.PermissionOutlivesMessage | meta-ticos/recipes-ticos/ticosd/files/ticosd/src/queue.c:476-497 | There is a reachable full queue whose only message has been handed out; a legal write replaces it, and completing then takes away the new message, which nobody was given. |
| QueueLimits.RestartLosesFlushMessage | meta-ticos/recipes-ticos/ticosd/files/ticosd/src/queue.c:142-146 | There is a reachable queue with a message that ends on the buffer's last byte behind another one; a restart does not keep the list. |
| QueueLimits.RestartReordersFullQueue | meta-ticos/recipes-ticos/ticosd/files/ticosd/src/queue.c:197-245 | There is a reachable full queue, its oldest message not in word 0, that a restart does not keep. |
| QueueLimits.StaleMarkerMisleads | meta-ticos/recipes-ticos/ticosd/files/ticosd/src/queue.c:129-132 | There is a reachable queue and an orderly write that ends just before an END marker of an earlier lap, after which the queue does not deliver what it should. |
| QueueLimits.FlushMessageIsLost | meta-ticos/recipes-ticos/ticosd/files/ticosd/src/queue.c:142-146 | In a buffer of 16 bytes any payload of 4 is stored, and the next read reports the queue empty. |
| QueueLimits.StartupCanHang | meta-ticos/recipes-ticos/ticosd/files/ticosd/src/queue.c:228-245 | There is a file on which the backward walk never ends. |
| Queue.EffectiveSize | meta-ticos/recipes-ticos/ticosd/files/ticosd/src/queue.c:252-274 | A size in range is rounded down to a multiple of four; any other size gives the default. |
| Queue.Queue.constructor | meta-ticos/recipes-ticos/ticosd/files/ticosd/src/queue.c:333-335 | The handle takes over the bytes unchanged, with the pointers that the search finds in them. |
| Queue.Queue.IsMsgValid | meta-ticos/recipes-ticos/ticosd/files/ticosd/src/queue.c:160-174 | Computes validity, in bounds, magic and checksum, from the buffer. |
| Queue.Queue.FindReadWritePtr | meta-ticos/recipes-ticos/ticosd/files/ticosd/src/queue.c:181-250 | The two loops find exactly the pointers of the recursive scan and walk, and change no byte. |
| Queue.Queue.ReadHeadMessage | meta-ticos/recipes-ticos/ticosd/files/ticosd/src/queue.c:382-407 | Hands out the payload at the read pointer or nothing, and permits completing exactly when it handed something out. |
| Queue.Queue.CompleteReadMessage | meta-ticos/recipes-ticos/ticosd/files/ticosd/src/queue.c:415-434 | Without permission nothing changes; otherwise the message is marked, the read pointer moves on and the permission is gone. |
| Queue.Queue.SkipOverwritten | meta-ticos/recipes-ticos/ticosd/files/ticosd/src/queue.c:484-492 | The loop ends where the recursive walk does. |
| Queue.Queue.MakeRoom | meta-ticos/recipes-ticos/ticosd/files/ticosd/src/queue.c:463-497 | Stores the END marker when the message does not fit, and moves read pointer, write pointer and permission as one write step does. |
| Queue.Queue.WriteMessage | meta-ticos/recipes-ticos/ticosd/files/ticosd/src/queue.c:445-524 | Refuses empty and oversized payloads without any change; otherwise bytes and pointers become those of one write step. |
| Transmit.ProcessTxQueue | meta-ticos/recipes-ticos/ticosd/files/ticosd/src/ticosd.c:109-190 | Over the real queue: requests are made, each with its kind and body, and messages leave as in serving the list in order; the result is true exactly when the queue was emptied; with collection disabled nothing happens. |
| Transmit.SendEntry | meta-ticos/recipes-ticos/ticosd/files/ticosd/src/ticosd.c:124-173 | Makes the one request that the entry's type calls for and returns its answer; without one the answer is that repeating is useless. |
| Transmit.EntryInFront | meta-ticos/recipes-ticos/ticosd/files/ticosd/src/ticosd.c:124-183 | An entry that starts with 0x52, 0x43, 0x63 or 0x41 in front causes exactly one request, an event post, plain upload, gzip upload or attributes patch, and leaves exactly when that is not answered "later"; any other causes none and leaves. |
| Transmit.ServeInOrder | meta-ticos/recipes-ticos/ticosd/files/ticosd/src/ticosd.c:118-184 | One call makes the requests of the entries in order, stops early only at an entry whose request is answered "later", which stays at the head, and has settled exactly the requests of the entries it removed. |
| Transmit.AtLeastOnce | meta-ticos/recipes-ticos/ticosd/files/ticosd/src/ticosd.c:118-184 | Over any number of calls and any answers, the settled requests are exactly those that the entries that have left call for, in order and once each. |
| CborFormat.HeadRoundTrip | meta-ticos/recipes-ticos/ticosd/files/ticosd/src/util/cbor.c:73-100 | Decoding a head followed by any bytes gives its major type and argument and leaves exactly those bytes (section 2.1 of RFC 7049). |
| CborFormat.HeadIsShortest | meta-ticos/recipes-ticos/ticosd/files/ticosd/src/util/cbor.c:73-100 | No head of any bytes with the same major type and argument is shorter (section 3.9 of RFC 7049). |
| CborFormat.HeadBytes | meta-ticos/recipes-ticos/ticosd/files/ticosd/src/util/cbor.c:73-100 | The initial byte and the argument behind it, in literals (section 2.1 of RFC 7049). |
| CborFormat.EncodedBytes | meta-ticos/recipes-ticos/ticosd/files/ticosd/src/util/cbor.c:111-182 | Every kind of item has its major type as a number and what belongs behind the head (section 2.1 of RFC 7049). |
| CborFormat.Examples | meta-ticos/recipes-ticos/ticosd/files/ticosd/src/util/cbor.c:73-100 | Integers of appendix A of RFC 7049 encode as they do there. |
| CborFormat.ExamplesOfStrings | meta-ticos/recipes-ticos/ticosd/files/ticosd/src/util/cbor.c:156-182 | So do strings, and an empty array and map. |
| CborFormat.ItemRoundTrip | meta-ticos/recipes-ticos/ticosd/files/ticosd/src/util/cbor.c:111-182 | Decoding any encoded item, nested arrays and maps included, followed by any bytes gives the item and exactly those bytes. |
| CborFormat.StringReadsBackIffShort | meta-ticos/recipes-ticos/ticosd/files/ticosd/src/util/cbor.c:166-170 | A text string reads back exactly when it is shorter than 2^32 bytes; the length in the head is cut to 32 bits. |
| Cbor.AddAllIffRoom | meta-ticos/recipes-ticos/ticosd/files/ticosd/src/util/cbor.c:51-71 | A call's pieces are all taken exactly when there is room for them together; otherwise the capacity is kept. |
| Cbor.AddAllTakesPrefix | meta-ticos/recipes-ticos/ticosd/files/ticosd/src/util/cbor.c:51-71 | Pieces are taken whole, in order, up to the first that does not fit. |
| Cbor.SessionStaysInBuffer | meta-ticos/recipes-ticos/ticosd/files/ticosd/src/util/cbor.c:51-71 | Over any calls, failing ones included, bytes once taken stay, new ones follow directly, and the capacity is never passed. |
| Cbor.PassesAgree | meta-ticos/recipes-ticos/ticosd/files/ticosd/src/util/cbor.c:58-71 | The size-only pass counts exactly the capacity the writing pass needs, and both produce the same bytes. |
| Cbor.IntegerReadsBack | meta-ticos/recipes-ticos/ticosd/files/ticosd/src/util/cbor.c:111-154 | Every 64-bit integer decodes to itself, whatever bytes follow, and takes five bytes at most exactly from -2^32 to 2^32 - 1. |
| Cbor.Encoder.ToBuffer | meta-ticos/recipes-ticos/ticosd/files/ticosd/src/util/cbor.c:30-39 | A new encoder has taken nothing and may take as much as the buffer holds. |
| Cbor.Encoder.SizeOnly | meta-ticos/recipes-ticos/ticosd/files/ticosd/src/util/cbor.c:41-43 | A size-only encoder has no limit and no buffer. |
| Cbor.Encoder.AddToResultBuffer | meta-ticos/recipes-ticos/ticosd/files/ticosd/src/util/cbor.c:51-71 | Data is appended whole behind the bytes delivered so far, or refused without change; nothing else in the target changes and the size equals the bytes delivered. |
| Cbor.Encoder.EncodeHead | meta-ticos/recipes-ticos/ticosd/files/ticosd/src/util/cbor.c:73-100 | The bytes stored one by one are the shortest head. |
| Cbor.Encoder.EncodeUint64 | meta-ticos/recipes-ticos/ticosd/files/ticosd/src/util/cbor.c:102-107 | The shift loop stores the number's eight bytes, most significant first. |
| Cbor.Encoder.EncodeLongSignedInteger | meta-ticos/recipes-ticos/ticosd/files/ticosd/src/util/cbor.c:111-127 | Adds the encoding of the integer, which IntegerReadsBack says is five bytes at most exactly where 32 bits are enough. |
| Cbor.Encoder.EncodeUint64AsDouble | meta-ticos/recipes-ticos/ticosd/files/ticosd/src/util/cbor.c:129-136 | Adds a double with exactly these 64 bits. |
| Cbor.Encoder.EncodeSignedInteger | meta-ticos/recipes-ticos/ticosd/files/ticosd/src/util/cbor.c:147-154 | Adds the encoding of the 32-bit integer. |
| Cbor.Encoder.EncodeUnsignedInteger | meta-ticos/recipes-ticos/ticosd/files/ticosd/src/util/cbor.c:138-140 | Adds the encoding of the number. |
| Cbor.Encoder.Join | meta-ticos/recipes-ticos/ticosd/files/ticosd/src/util/cbor.c:142-145 | Adds bytes that are encoded already. |
| Cbor.Encoder.EncodeDictionaryBegin | meta-ticos/recipes-ticos/ticosd/files/ticosd/src/util/cbor.c:176-178 | Adds a map's head, with the count cut to 32 bits. |
| Cbor.Encoder.EncodeArrayBegin | meta-ticos/recipes-ticos/ticosd/files/ticosd/src/util/cbor.c:180-182 | Adds an array's head, with the count cut to 32 bits. |
| Cbor.Encoder.EncodeByteString | meta-ticos/recipes-ticos/ticosd/files/ticosd/src/util/cbor.c:156-160 | Adds head and bytes, or stops at the one that does not fit. |
| Cbor.Encoder.EncodeString | meta-ticos/recipes-ticos/ticosd/files/ticosd/src/util/cbor.c:166-170 | Adds head and text, or stops at the one that does not fit. |
| ElfNote.NoteInit | meta-ticos/recipes-ticos/ticosd/files/ticosd/src/plugins/coredump/core_elf_note.c:29-42 | The buffer then holds the note with its owner name and a description of zeros, both padded to four bytes; nothing behind it changes, and the description's place is returned. |
| ElfNote.NoteReadsBackIffShort | meta-ticos/recipes-ticos/ticosd/files/ticosd/src/plugins/coredump/core_elf_note.c:15-42 | Parsing a note (System V gABI, chapter 5, Note Section) gives its owner, type and description exactly when the description's size fits 32 bits. |
| ElfNote.NoteBytesMean | meta-ticos/recipes-ticos/ticosd/files/ticosd/src/plugins/coredump/core_elf_note.c:15-42 | A note byte by byte: sizes and type as little-endian numbers, the owner with its NUL and the description, each with zeros up to four bytes. |
| Metadata.AddCborMetadata | meta-ticos/recipes-ticos/ticosd/files/ticosd/src/plugins/coredump/core_elf_metadata.c:69-78 | The chain of calls adds the map's head and its seven entries in order, up to the first piece that does not fit. |
| Metadata.CborCalculateSize | meta-ticos/recipes-ticos/ticosd/files/ticosd/src/plugins/coredump/core_elf_metadata.c:80-85 | The size-only run gives the length of the description that the writing run writes. |
| Metadata.NoteCalculateSize | meta-ticos/recipes-ticos/ticosd/files/ticosd/src/plugins/coredump/core_elf_metadata.c:87-89 | The calculated size is that of the whole note. |
| Metadata.NoteWrite | meta-ticos/recipes-ticos/ticosd/files/ticosd/src/plugins/coredump/core_elf_metadata.c:91-103 | Into a buffer of at least the calculated size writing always succeeds, leaves exactly the note's bytes, and changes nothing behind it. |
| Metadata.DescriptionIsMap | meta-ticos/recipes-ticos/ticosd/files/ticosd/src/plugins/coredump/core_elf_metadata.c:69-78 | For strings shorter than 2^32 bytes the description is the encoding of a map of seven entries. |
| Metadata.FoundAgain | meta-ticos/recipes-ticos/ticosd/files/ticosd/src/plugins/coredump/core_elf_metadata.c:26-78 | Looking up the seven keys in that map gives back all the metadata. |
| Metadata.MetadataNumbers | meta-ticos/recipes-ticos/ticosd/files/ticosd/src/plugins/coredump/core_elf_metadata.c:17-67 | The owner's bytes, the note's type and the number under which each of the metadata stands, in literals. |
| Metadata.NoteReadsBack | meta-ticos/recipes-ticos/ticosd/files/ticosd/src/plugins/coredump/core_elf_metadata.c:69-103 | A reader of the note gets owner name, type and all seven fields, exactly when the description's size fits 32 bits. |
| ElfFormat.WrittenHeaderIsValid | meta-ticos/recipes-ticos/ticosd/files/ticosd/src/plugins/coredump/core_elf_reader.c:19-30 | A header the writer writes, with at least one segment, is one the reader accepts. |
| ElfFormat.ValidCoreByBytes | meta-ticos/recipes-ticos/ticosd/files/ticosd/src/plugins/coredump/core_elf_reader.c:19-30 | What the reader takes for a core dump, by bytes and numbers: everything else is rejected. |
| ElfFormat.FieldsByBytes | meta-ticos/recipes-ticos/ticosd/files/ticosd/src/plugins/coredump/core_elf_reader.c:119-146 | The places of the header fields that the reader uses. |
| ElfFormat.PhdrByBytes | meta-ticos/recipes-ticos/ticosd/files/ticosd/src/plugins/coredump/core_elf_reader.c:75-79 | The places of a segment header's fields as they are read. |
| ElfFormat.PhdrBytesMean | meta-ticos/recipes-ticos/ticosd/files/ticosd/src/plugins/coredump/core_elf_writer.c:183 | The places of a segment header's fields as they are written. |
| ElfFormat.EhdrBytesMean | meta-ticos/recipes-ticos/ticosd/files/ticosd/src/plugins/coredump/core_elf_writer.c:145-170 | A written file header byte by byte, in literals: everything that is not chosen is fixed, zero fields included. |
| ElfLayout.ImageHeader | meta-ticos/recipes-ticos/ticosd/files/ticosd/src/plugins/coredump/core_elf_writer.c:145-170 | The same of the first 64 bytes of every file that is written. |
| ElfFormat.EhdrFields | meta-ticos/recipes-ticos/ticosd/files/ticosd/src/plugins/coredump/core_elf_writer.c:145-170 | The fields read at their places in the written file header are those chosen. |
| ElfFormat.PhdrAt | meta-ticos/recipes-ticos/ticosd/files/ticosd/src/plugins/coredump/core_elf_writer.c:183 | Parsing a written segment header gives it back. |
| ElfLayout.AlignsIffPowerOfTwo | meta-ticos/recipes-ticos/ticosd/files/ticosd/src/plugins/coredump/core_elf_writer.c:77-85 | Adding and masking aligns every offset exactly when the alignment is a power of two. |
| ElfLayout.AlignUpIsLeast | meta-ticos/recipes-ticos/ticosd/files/ticosd/src/plugins/coredump/core_elf_writer.c:77-85 | For a power of two the result is the least aligned offset that is not below. |
| ElfLayout.AlignUpDoesNotWrap | meta-ticos/recipes-ticos/ticosd/files/ticosd/src/plugins/coredump/core_elf_writer.c:77-85 | If the aligned offset fits in 64 bits, so does the sum on the way. |
| ElfLayout.PlanIsTight | meta-ticos/recipes-ticos/ticosd/files/ticosd/src/plugins/coredump/core_elf_writer.c:176-187 | Only the offset of a header is changed, to the end of the previous segment and its padding. |
| ElfLayout.PlanIsSound | meta-ticos/recipes-ticos/ticosd/files/ticosd/src/plugins/coredump/core_elf_writer.c:176-187 | For any alignments: offsets lie behind the table, ascend without overlap and leave gaps below the alignment; for a power of two each is the least aligned one that is free. |
| ElfLayout.DataAt | meta-ticos/recipes-ticos/ticosd/files/ticosd/src/plugins/coredump/core_elf_writer.c:189-216 | Every segment's bytes stand at its planned offset, with zeros up to it. |
| ElfLayout.ImageReadsBack | meta-ticos/recipes-ticos/ticosd/files/ticosd/src/plugins/coredump/core_elf_writer.c:140-222 | Parsing the file gives the header fields, every segment header with only its offset changed, its bytes there, and zeros in the gap before them. |
| ElfIo.IoWriteAll | meta-ticos/recipes-ticos/ticosd/files/ticosd/src/plugins/coredump/core_elf_writer.c:52-67 | Emits exactly its data for any pattern of short and interrupted writes; it stops at the first call that fails, with what the calls before it took. |
| ElfWriter.Writer.WritePadding | meta-ticos/recipes-ticos/ticosd/files/ticosd/src/plugins/coredump/core_elf_writer.c:87-100 | Writes exactly so many zeros, in pieces. |
| ElfWriter.Writer.WriteTable | meta-ticos/recipes-ticos/ticosd/files/ticosd/src/plugins/coredump/core_elf_writer.c:176-187 | Writes the headers with the planned offsets and records them in the segments. |
| ElfWriter.Writer.WriteBlock | meta-ticos/recipes-ticos/ticosd/files/ticosd/src/plugins/coredump/core_elf_writer.c:191-215 | Pads to the planned offset and writes the bytes; over a working stream the end check never fires. |
| ElfWriter.Writer.WriteData | meta-ticos/recipes-ticos/ticosd/files/ticosd/src/plugins/coredump/core_elf_writer.c:189-216 | All blocks one after the other are the planned data region. |
| ElfWriter.Writer.Write | meta-ticos/recipes-ticos/ticosd/files/ticosd/src/plugins/coredump/core_elf_writer.c:140-222 | Success means that exactly the file was written and synced; a failing stream is left with the start of it; a working one always succeeds. |
| ElfIo.LoadByte | meta-ticos/recipes-ticos/ticosd/files/ticosd/src/plugins/coredump/core_elf_transformer.c:87-110 | A byte of a memory segment is the filler 0xEF exactly when the call that it falls to gives nothing, and else the one at its address, however far each call gets. |
| ElfIo.LoadIsMemory | meta-ticos/recipes-ticos/ticosd/files/ticosd/src/plugins/coredump/core_elf_transformer.c:87-110 | Nothing is filled in when every call copies something. |
| ElfWriter.Writer.WriteLoadSegmentData | meta-ticos/recipes-ticos/ticosd/files/ticosd/src/plugins/coredump/core_elf_transformer.c:87-110 | The chunk loop writes exactly as many bytes as the header says: copied ones, and filler for a chunk that cannot be copied. |
| ElfReader.SplittingDoesNotMatter | meta-ticos/recipes-ticos/ticosd/files/ticosd/src/plugins/coredump/core_elf_reader.c:46-73 | For any pattern of non-empty short reads and interruptions the bytes read are the stream's next ones, as many as asked for or left. |
| ElfReader.FailureStops | meta-ticos/recipes-ticos/ticosd/files/ticosd/src/plugins/coredump/core_elf_reader.c:46-73 | When a call fails or gives nothing before all is read, what was given before is what is read, and no further call is made. |
| ElfReader.SegmentIsThere | meta-ticos/recipes-ticos/ticosd/files/ticosd/src/plugins/coredump/core_elf_reader.c:161-180 | For every such stream a segment read gives exactly the bytes that are there from its position, none if they have been passed, and says where the stream then is. |
| ElfReader.Reader.ReadAll | meta-ticos/recipes-ticos/ticosd/files/ticosd/src/plugins/coredump/core_elf_reader.c:46-73 | For any answers, failures included, the loop gathers the answers' bytes in order, and the stream position counts them. |
| ElfReader.Reader.ReadSegmentData | meta-ticos/recipes-ticos/ticosd/files/ticosd/src/plugins/coredump/core_elf_reader.c:161-180 | For any answers: skips to the position and reads there, or gives nothing when it has been passed or cannot be reached. |
| Transformer.Transformer.ProcessNoteSegment | meta-ticos/recipes-ticos/ticosd/files/ticosd/src/plugins/coredump/core_elf_transformer.c:55-85 | A note is passed on with its header when all its bytes could be read, and else left out. |
| Transformer.Transformer.AppendMetadataNote | meta-ticos/recipes-ticos/ticosd/files/ticosd/src/plugins/coredump/core_elf_transformer.c:122-145 | The metadata note is added, never failing. |
| Transformer.Transformer.CollectSegments | meta-ticos/recipes-ticos/ticosd/files/ticosd/src/plugins/coredump/core_elf_transformer.c:151-169 | Goes through the headers once, reading notes on the way and leaving memory segments for later. |
| Transformer.Transformer.HandleSegments | meta-ticos/recipes-ticos/ticosd/files/ticosd/src/plugins/coredump/core_elf_transformer.c:147-177 | Collects, adds the metadata note and writes: the whole file on success, else a start of it. |
| Transformer.Transformer.ActionReadElfHeader | meta-ticos/recipes-ticos/ticosd/files/ticosd/src/plugins/coredump/core_elf_reader.c:117-148 | Consumes the header and decides as the whole read does: skip, go on or give up. |
| Transformer.Transformer.ActionSkipToSegmentHeaders | meta-ticos/recipes-ticos/ticosd/files/ticosd/src/plugins/coredump/core_elf_reader.c:105-115 | Skips to the table or gives up when the stream ends before. |
| Transformer.Transformer.ActionReadSegmentHeaders | meta-ticos/recipes-ticos/ticosd/files/ticosd/src/plugins/coredump/core_elf_reader.c:75-85 | With a complete table the segments are handled; without, nothing is written. |
| Transformer.Transformer.Run | meta-ticos/recipes-ticos/ticosd/files/ticosd/src/plugins/coredump/core_elf_transformer.c:212-214 | The state machine ends; for any answers of both streams, the output holds the file that the read dump calls for, a start of it when writing failed, or nothing when no dump was read; success exactly for a working output stream that syncs. |
| Transformer.CoreOfReliable | meta-ticos/recipes-ticos/ticosd/files/ticosd/src/plugins/coredump/core_elf_reader.c:75-148 | For every reliable stream what is read depends on the bytes alone, not on how they are split up. |
| Transformer.WhatIsTransformed | meta-ticos/recipes-ticos/ticosd/files/ticosd/src/plugins/coredump/core_elf_reader.c:75-148 | For every reliable stream: by its bytes, in literals, exactly which are dumps; where the headers are taken from; and which segments are passed on, out of order too: memory, empty notes, and the notes whose bytes are there and had not been passed. |
| Transformer.ReadsAreHonest | meta-ticos/recipes-ticos/ticosd/files/ticosd/src/plugins/coredump/core_elf_transformer.c:147-177 | Whatever the reads answer, failures included: the segments are the input's in order, every memory segment, and of the notes some, each with exactly its bytes. |
| Transformer.KeptIffInOrder | meta-ticos/recipes-ticos/ticosd/files/ticosd/src/plugins/coredump/core_elf_transformer.c:151-169 | Over a stream that answers reliably no segment is left out if and only if there are only notes and memory and the notes that have bytes lie in ascending order without overlap. |
| Transformer.KeptInOrder | meta-ticos/recipes-ticos/ticosd/files/ticosd/src/plugins/coredump/core_elf_transformer.c:151-169 | The segments passed on are then the headers' one by one, each note with exactly its bytes. |
| Transformer.AllSegmentsIffInOrder | meta-ticos/recipes-ticos/ticosd/files/ticosd/src/plugins/coredump/core_elf_transformer.c:147-177 | The output has one segment more than the input if and only if the notes lie in order. |
| Transformer.TransformReadsBack | meta-ticos/recipes-ticos/ticosd/files/ticosd/src/plugins/coredump/core_elf_transformer.c:55-177 | Then parsing the output gives the input's header fields and segment headers in order with only offsets changed; note bytes are the input's, memory bytes the process's, with filler exactly where a call gave nothing; and one more note with the metadata follows. |
| RateLimiter.RateLimiter.constructor | meta-ticos/recipes-ticos/ticosd/files/ticosd/src/util/rate_limiter.c:83-113 | The history is what the file holds, as many entries as the limit counts, with zeros for what is missing. |
| RateLimiter.RateLimiter.CheckEvent | meta-ticos/recipes-ticos/ticosd/files/ticosd/src/util/rate_limiter.c:25-61 | A rejected event changes nothing; an accepted one is put in front of the shifted history, which is saved if it can be. |
| RateLimiter.CheckOptional | meta-ticos/recipes-ticos/ticosd/files/ticosd/src/util/rate_limiter.c:25-29 | Without a limiter every event is accepted. |
| RateLimiter.SavedIsLoaded | meta-ticos/recipes-ticos/ticosd/files/ticosd/src/util/rate_limiter.c:53-55 | Loading a saved history gives it back. |
| RateLimiter.HistoryIsLatestAccepted | meta-ticos/recipes-ticos/ticosd/files/ticosd/src/util/rate_limiter.c:39-43 | Over any run the history is the latest accepted times, newest first, followed by what was there before. |
| RateLimiter.AcceptedAreSpaced | meta-ticos/recipes-ticos/ticosd/files/ticosd/src/util/rate_limiter.c:34-43 | Any accepted event comes at least a whole window after the one as many places before it as the limit counts. |
| RateLimiter.NoWindowOverfull | meta-ticos/recipes-ticos/ticosd/files/ticosd/src/util/rate_limiter.c:25-43 | With a clock that never goes back, no half-open window of the duration holds more accepted events than the limit. |
| RateLimiter.RejectedIffWindowFull | meta-ticos/recipes-ticos/ticosd/files/ticosd/src/util/rate_limiter.c:34-37 | An event is turned away exactly when every time in a newest-first history is less than the duration ago. |
| RateLimiter.HistoryStaysSorted | meta-ticos/recipes-ticos/ticosd/files/ticosd/src/util/rate_limiter.c:39-43 | The history stays newest first while the clock does not go back. |
| Config.MergeObjects | meta-ticos/recipes-ticos/ticosd/files/ticosd/src/util/config.c:162-178 | The recursive merge loop computes the deep merge. |
| Config.GetAfterMerge | meta-ticos/recipes-ticos/ticosd/files/ticosd/src/util/config.c:162-178 | A merged key holds the overlay's value, merged into the base's when both are objects, and else the base's. |
| Config.ResolveAfterMerge | meta-ticos/recipes-ticos/ticosd/files/ticosd/src/util/config.c:162-178 | Any path in a merged tree leads to the overlay's value where it defines the path, nowhere where it cuts the path off, and to the base's otherwise. |
| Config.FindAfterMerge | meta-ticos/recipes-ticos/ticosd/files/ticosd/src/util/config.c:106-130 | The same for lookups by section and key. |
| Config.FindSection | meta-ticos/recipes-ticos/ticosd/files/ticosd/src/util/config.c:106-130 | Looking up without a key finds a section exactly when it is an object, and the tree itself exactly when it is no null; GetObjects takes its fields from there. |
| Config.SectionIsUnion | meta-ticos/recipes-ticos/ticosd/files/ticosd/src/util/config.c:425-442 | A section's array has each key of either layer exactly once, with the upper layer's type and value. |
| Config.SectionOrder | meta-ticos/recipes-ticos/ticosd/files/ticosd/src/util/config.c:425-442 | The array has the base's keys in their order, and then those that only the run-time layer has. |
| Config.KeysAfterMerge | meta-ticos/recipes-ticos/ticosd/files/ticosd/src/util/config.c:162-178 | Merging keeps the base's keys in their order and adds the overlay's new ones behind them. |
| Config.KeysAfterPut | meta-ticos/recipes-ticos/ticosd/files/ticosd/src/util/config.c:139-154 | Setting a key keeps the order of the keys, with a new one at the end. |
| Config.ViewsAgreeIffNotNull | meta-ticos/recipes-ticos/ticosd/files/ticosd/src/util/config.c:332-443 | Array and single lookup agree about a key exactly when the upper layer that has it holds no null there, or one that hides an array or a fraction in the base, which both call a value of unknown type. |
| Config.SetChangesOnlyItsPath | meta-ticos/recipes-ticos/ticosd/files/ticosd/src/util/config.c:139-154 | The value set is found at its path, and no path changes that neither contains it nor is contained in it. |
| Config.LookupAfterSet | meta-ticos/recipes-ticos/ticosd/files/ticosd/src/util/config.c:139-154 | Through both layers: the value set is found again, a null uncovers the base's, and unrelated lookups stay. |
| Config.Config.SetObject | meta-ticos/recipes-ticos/ticosd/files/ticosd/src/util/config.c:139-154 | Makes the section an object when it is none, and puts the value into it. |
| Config.Config.GetString | meta-ticos/recipes-ticos/ticosd/files/ticosd/src/util/config.c:332-351 | Found exactly when the first layer that has something there has a string, and then that string. |
| Config.Config.GetInteger | meta-ticos/recipes-ticos/ticosd/files/ticosd/src/util/config.c:363-382 | Found exactly when the first layer that has something there has an integer; the value is that integer from -2^31 to 2^31 - 1, and the nearer end of the range outside. |
| Config.Config.GetBoolean | meta-ticos/recipes-ticos/ticosd/files/ticosd/src/util/config.c:394-413 | Found exactly when the first layer that has something there has a boolean. |
| Config.Config.GetObjects | meta-ticos/recipes-ticos/ticosd/files/ticosd/src/util/config.c:425-442 | Merges the base's section and then the run-time one into the array. |
| Config.Config.MergeObjectIntoArray | meta-ticos/recipes-ticos/ticosd/files/ticosd/src/util/config.c:54-96 | The search loop replaces the entry with the field's key or appends one. |

## Left out

- Queue.Queue.WriteMessage: excludes payloads of more than 2^32 - 4 bytes, for which the 32-bit rounding wraps and the copy runs past the buffer; QueueFormat.RoundUpCovers gives the exact limit.
- Queue.Queue.constructor: asks that the start-up search ends, because the code has no answer otherwise; QueueRestart.StartupEnds is the condition and QueueLimits.StartupCanHang a file that violates it.
- Transmit.ProcessTxQueue: starts from a queue in order (`Good`), which every allowed run keeps; messages are not written while a call runs, and the network is a fixed answer to each request; URLs and failing allocation of paths are not modelled.
- Transmit.SendEntry: a request's body is everything behind the type; that strings end at the first NUL, and that an attributes entry has its time stamp in front of the JSON text, is not modelled.
- Metadata.NoteWrite: the buffer behind the note's header has at most 2^32 bytes, because the encoder's callback takes 32-bit offsets.
- Cbor.Encoder.ToBuffer: a buffer of at most 2^32 bytes, for the same reason; the callback is the one that copies into a buffer.
- Cbor.Encoder.EncodeUint64AsDouble: the 64 bits are kept, not interpreted as a floating-point number.
- Transformer.Transformer.Run: the planned file has fewer than 65535 segments and no offset beyond 64 bits; which warnings are given is not modelled, nor is the handler's array of them.
- ElfWriter.Writer.Write: the segment callback is always the transformer's own, which copies process memory; a copy call never gives more than was asked for.
- RateLimiter.RateLimiter.constructor: a count or duration of 0, and a history file that exists but cannot be opened, give no limiter; RateLimiter.CheckOptional covers that case.
- Config.Config.SetObject: trees are values, so objects shared between the two trees by a merge are not seen to change together; arrays and fractions are one kind of value.
- ticosd_queue_reset: clears the first header only, so messages of earlier laps come back and no list is refined.
- msync, mmap, file opening and torn writes: the buffer is memory that survives a restart unchanged.
- Reads of a header that reaches past the buffer's end: the answer is the same whatever is read there, so the model guards the read; pointers are taken to be 64 bits wide.
- QueueRestart.StartupOnAnyContents: a back-link in a damaged file may name a word far outside the buffer, where the C code would read memory that is not mapped; the backward walk is modelled with the guarded read, which finds nothing valid there.
- A NULL payload is modelled as an empty one, and NULL keys and sections as empty strings.
- Failing allocation, freeing, and log output.
- The ELF structures are the 64-bit little-endian ones.
- gzip output, the size cap of the file writer, and reading from real descriptors.
- The clock is a parameter, the history file a sequence of integers, configuration files are not read or written.
- libcurl, sockets, systemd, D-Bus, collectd, reboot reasons, PID files, the command line, the QEMU tests and the Yocto recipes.

Nothing was executed; all statements are about the models.
