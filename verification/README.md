# Verified models of the firmware's queues, clocks and update protocols

This project models the algorithmic core of the SDK in Dafny and proves what that code is for:
ring buffers that behave like bounded byte queues, an intrusive list whose pointers always form
the ring they should, two over-the-air update clients that put exactly the served image into
flash, a camera-frame reassembly with the exact condition under which it can mix frames, a
notification throttle with the exact condition under which it can lose a wake-up, and the clock and configuration arithmetic around them.

Code that changes state is modelled by classes and methods over fields and arrays, with loops
where the C has loops; each method is tied to a function or predicate of the old state, and the
main theorems are lemmas about that specification over every run. Protocols with several
participants (TFTP, video, receive throttle) are step systems over atomic steps; one interrupt-
disabled region, one callback or one packet is one step.

| file | what it models |
|---|---|
| Words.dfy | 8-, 16- and 32-bit words, wrap-around, bit masks, little-endian loads |
| Seqs.dfy | optional values, joining, overwriting and removing parts of sequences |
| CString.dfy | characters, white space and decimal numbers as the C library reads them |
| BoundedQueue.dfy | the byte queue that both fifos implement |
| Ring.dfy | reading and writing around the end of a circular buffer |
| Kfifo.dfy | common/fifo.h |
| Sfifo.dfy | the fifo, senders and file transfer of app/ftp/ftpd.c |
| DoublyList.dfy | common/doubly_list.h |
| OsClock.dfy, UtilsTimer.dfy | rttos/os_clock.c, app/http/utils_timer.c |
| Base64.dfy | base64 and basic authentication of app/http/utils_httpc.c |
| Flash.dfy | the flash device and the growth of an image on it |
| TftpStore.dfy, TftpWire.dfy, TftpProtocol.dfy, TftpOta.dfy | app/tftp/tftpclient.c: image writer, packets, protocol, and all three together |
| HttpFlash.dfy, HttpDownload.dfy, HttpHeaders.dfy, HttpResponse.dfy, HttpOta.dfy | app/http/utils_httpc.c and utils_net.c: re-blocking into flash, receive loop and body download, header parser, reading the headers, and everything together |
| VideoBuffer.dfy | app/video_work/video_buffer.c |
| RxThrottle.dfy | the receive notifications of app/app.c |
| Tlv.dfy | the configuration search of app/net_work/video_demo_softap.c |

Inputs of the model stand for what the code gets from outside: clock samples, the room TCP
announces and whether its writes succeed, what select and recv bring, the timing of interrupts,
the order, loss and duplication of packets, the contents of flash. The CRC step is an arbitrary
function of checksum and byte.

Where the code does not do what its documentation or callers suggest, the model follows the code
and a lemma says so:

- A failed queue push of one receive notification can withdraw the wake-up that another sender
  relied on when it returned early (`RxThrottle.FailedPushLosesWakeUp`); `CoveredUnlessLossyUndo`
  says exactly when.
- The TFTP client compares a block number with the last one only. `TftpProtocol.PacketKeepsOrder`
  says for every client state exactly which packet puts the stored blocks out of order, and
  `OrderedUnlessMisordered` for every run: an older block that arrives late (`OlderBlockMisorders`,
  with the shortest list in `ReorderingStoresTwice`), and blocks after a late option
  acknowledgement (`LateOptionAck`). Channels that keep the order rule these out, and
  `TransferSafe` needs nothing else.
- The TFTP client never resets its timeout count and sends to the sender of the last packet, whoever
  that was: a lost acknowledgement is repaired by its timer only in the first ten timeouts of the
  whole transfer and without a foreign packet in between (`TftpProtocol.LostAckResent`,
  `ResendsAtMostTen`).
- Video frames are told apart by eight bits of their number, so a packet of another frame can be
  taken for the next one of the frame being assembled. `VideoBuffer.AssembledUnlessMixed` says over
  all runs, whatever was lost, repeated or reordered, exactly when the buffer stays the front of one
  frame. Such a packet can also end the assembly early: with the payload that comes next anyway, as
  the last of its own frame, when what is in the buffer happens to pass the check, GET announces a
  frame that is not complete. `CompleteUnlessTruncated` states exactly when GET means a complete
  frame, `RightUnlessMisled` exactly when contents and every status are right. `LossCanMix` and
  `LossCanTruncate` show that loss alone can bring this about, `OrderlyNeverAliased` that it cannot
  unless the first packets of 256 frames in a row are lost.
- A TFTP file whose length modulo the block size is below 24 ends with a packet shorter than its
  own header, exact multiples of the block size included (`TftpOta.SizesOfFile`,
  `ShortLastPacket`): store_block then computes a length that wraps around.
- An image that reaches the end of the HTTP partition is not stored completely although nothing
  reports it (`HttpFlash.ImageComplete` gives the exact condition).
- `iotx_time_left` and `utils_time_left` disagree at two distances (`UtilsTimer.TwoTimeLefts`), and
  a countdown is exact within limits that `CountdownExact` states as an equivalence.
- The HTTP parser refuses a whole response because of one header field, known to it or not, whose
  name is longer than 31 characters or whose value is blank (`HttpHeaders.ParsesFormat`), and one
  whose status line is split over two reads (`StatusLineMustComeFirst`, `HttpResponse.ResponseParse`).
- The configuration search computes addresses in 32 bits and never ends if and only if it comes back
  to an address it has tried (`Tlv.NeverEndsIffCycle`), as with a record of length 0xFFFFFFF8
  (`SelfFollowingRecord`); it ends if no length that it passes wraps (`ForwardWalkEnds`).
- A fifo of a single cell, which sfifo_init makes for requests of 0 and less, never moves a file
  (`Sfifo.SingleCellStalls`); with more, every transfer can finish (`TransferCanFinish`).
- The size search of the FTP fifo ends if and only if the request is below 2^30
  (`Sfifo.SizeSearchEnds`).
- The receive loop of a download waits for the number of bytes outstanding at its start, also after
  a read that a failed select or a close stopped half way. A body that then arrives completely still
  ends in a connection error at the deadline, unless the connection breaks once more
  (`HttpDownload.BreakHalfWay`). `HttpDownload.RetrieveContent` decides the end for every course of
  the connection; success is never reported for a truncated body.
- A download ends with "more data" although all data could be read if the part of the body that
  came with the headers fills the response buffer counter (`HttpDownload.RetrieveContent`).

## Model

| member | source | states |
|---|---|---|
| Words.AndPredecessor | beken378/common/fifo.h:35 | the size test at initialisation accepts a positive size if and only if it is a power of two |
| Words.MaskIsMod | beken378/common/fifo.h:112 | masking with size minus one is the remainder by the size, for every 32-bit power-of-two size |
| Words.WrapKeepsCell | beken378/common/fifo.h:117 | a counter that wraps past 2^32 still denotes the same cell |
| Words.LittleEndian | beken378/app/tftp/tftpclient.c:472 | a copy of four or two bytes into an integer reads the least significant byte first |
| Words.AndBits | beken378/common/fifo.h:112 | the bitwise operator of the model has a one exactly where both operands have one |
| BoundedQueue.RunConserves | beken378/common/fifo.h:100-154 | over any run of puts, gets and peeks, bytes delivered followed by bytes queued are the initial bytes followed by all accepted ones: nothing lost, repeated or reordered |
| BoundedQueue.PeekThenTake | beken378/common/fifo.h:184-196 | a peek returns exactly what a get of the same size returns next |
| Kfifo.PutRefines | beken378/common/fifo.h:100-120 | a put appends to the represented queue as much of the data as the capacity leaves room for, wherever counters and storage wrap |
| Kfifo.CopyOutIsFront | beken378/common/fifo.h:143-148 | the bytes a get or peek copies are the first ones of the queue |
| Kfifo.GetRefines | beken378/common/fifo.h:134-154 | a get removes from the front of the queue as many bytes as it delivers |
| Kfifo.StepRefines | beken378/common/fifo.h:100-196 | every operation answers and changes the state as the bounded queue of capacity size does |
| Kfifo.RunRefines | beken378/common/fifo.h:100-196 | every run of operations, with counters wrapping any number of times, is a run of the bounded queue of capacity size |
| Kfifo.PeekCopyReads | beken378/common/fifo.h:166-182 | a byte copy interrupted by puts before any byte still reads a given prefix of the queue |
| Kfifo.LockFreePeek | beken378/common/fifo.h:184-196 | a peek without critical section, with puts interrupting at every point and no get, returns the front of the queue as of the counter reads, still a prefix of the queue at the end, and every put has taken effect in order |
| Kfifo.KFifo.KfifoInit | beken378/common/fifo.h:30-48 | every size that passes the test, 0 included, yields a valid empty queue on the buffer, or no fifo without memory; a positive size that passes is a power of two |
| Kfifo.KFifo.Make | beken378/common/fifo.h:41-47 | the fields as initialised represent the empty queue |
| Kfifo.KFifo.KfifoPut | beken378/common/fifo.h:100-120 | the two memcpys store the longest prefix that fits behind the queue, and its length is returned |
| Kfifo.KFifo.KfifoGet | beken378/common/fifo.h:134-154 | the two memcpys deliver the first bytes of the queue to the front of the destination, leave its rest alone, and the queue loses exactly them |
| Kfifo.KFifo.KfifoDataSize | beken378/common/fifo.h:156-159 | the wrapped counter difference is the length of the queue |
| Kfifo.KFifo.KfifoUnused | beken378/common/fifo.h:161-164 | unused plus queue length is always the size |
| Kfifo.KFifo.KfifoCopyOut | beken378/common/fifo.h:166-182 | the destination receives the cells from an offset on, around the end of the buffer |
| Kfifo.KFifo.KfifoOutPeek | beken378/common/fifo.h:184-196 | the first bytes of the queue are delivered and the fifo is unchanged |
| Sfifo.UsedIsDistance | beken378/app/ftp/ftpd.c:256-257 | the masked, possibly negative difference of positions in 0..size is the distance around the ring and stays below size |
| Sfifo.LevelAfterWrite | beken378/app/ftp/ftpd.c:305-334 | a write raises the fill level by what fits beside the spare slot and keeps both positions within 0..size |
| Sfifo.WriteRefines | beken378/app/ftp/ftpd.c:305-334 | a write appends to the contents the prefix of the data that fits |
| Sfifo.SendRefines | beken378/app/ftp/ftpd.c:386-428 | whatever TCP answers, also when only the first of two writes succeeds, exactly the accepted bytes leave the front of the fifo |
| Sfifo.SendExactly | beken378/app/ftp/ftpd.c:386-428 | how many bytes TCP has taken, and the read position, for every answer: nothing, the part up to the end of the buffer when only the second of two writes fails, or all that it had room for |
| Sfifo.RunRefines | beken378/app/ftp/ftpd.c:305-428 | every interleaving of writes and sends is a run of the bounded queue of capacity size minus one |
| Sfifo.ExactlyOnceDraining | beken378/app/ftp/ftpd.c:305-428 | over any interleaving, bytes TCP accepted followed by bytes still queued are the initial contents followed by all bytes ever written, in order |
| Sfifo.SendFileKeepsInv | beken378/app/ftp/ftpd.c:430-482 | each send_file call keeps accepted, queued and unread bytes equal to the file |
| Sfifo.TransferComplete | beken378/app/ftp/ftpd.c:430-482 | the transfer is reported complete only after TCP accepted the whole file in order, whatever TCP and the file system answer on the way |
| Sfifo.TransferCanFinish | beken378/app/ftp/ftpd.c:430-482 | from every state of a transfer, with room for a byte in the fifo, some answers of file system and TCP bring it to its end with the whole file accepted |
| Sfifo.SingleCellStalls | beken378/app/ftp/ftpd.c:430-482 | with a single cell an open file is never moved |
| Sfifo.SizeSearchEnds | beken378/app/ftp/ftpd.c:281-283 | doubling a 32-bit int exceeds the request at some point if and only if the request is below 2^30 |
| Sfifo.SFifo.SfifoInit | beken378/app/ftp/ftpd.c:264-290 | for every request for which it returns, the size is the smallest power of two above it; with memory the fifo is valid and empty, without it the caller is told |
| Sfifo.SFifo.SfifoWrite | beken378/app/ftp/ftpd.c:305-334 | without a buffer an error and no change; otherwise the contents grow by the longest prefix that fits, whose length is returned |
| Sfifo.SFifo.CopyIn | beken378/app/ftp/ftpd.c:322-331 | the one or two memcpys store the data around the ring and the position ends in 0..size |
| Sfifo.SFifo.SendData | beken378/app/ftp/ftpd.c:386-428 | what TCP's own log grew by is exactly what left the front of the fifo, so log and contents together are conserved; and how much that is for every answer, the failure of the second write included |
| Sfifo.SFifo.WriteOut | beken378/app/ftp/ftpd.c:391-427 | the one or two tcp_write calls put into TCP's log exactly the bytes that the read position passes |
| Sfifo.TcpPcb.TcpWrite | beken378/app/ftp/ftpd.c:412 | TCP takes over all of the data or refuses |
| Sfifo.SFifo.SendMsg | beken378/app/ftp/ftpd.c:1244-1260 | a reply line is queued whole if it fits and dropped whole otherwise; TCP's log plus queued bytes are conserved |
| DoublyList.ListHead.Init | beken378/common/doubly_list.h:26 | a static head is an empty list |
| DoublyList.InitListHead | beken378/common/doubly_list.h:31-33 | the node becomes an empty list |
| DoublyList.Neighbours | beken378/common/doubly_list.h:21-24 | the pointers of an entry are its neighbours in the sequence, and differ from the entry |
| DoublyList.ListIsUnique | beken378/common/doubly_list.h:21-24 | the pointers determine the sequence: one head carries one list |
| DoublyList.ListAddBetween | beken378/common/doubly_list.h:41-47 | a new node between two consecutive ring positions yields the well-formed list with the node inserted there |
| DoublyList.ListAddHead | beken378/common/doubly_list.h:57-60 | the node becomes the first entry |
| DoublyList.ListAddTail | beken378/common/doubly_list.h:70-73 | the node becomes the last entry |
| DoublyList.ListDel | beken378/common/doubly_list.h:82-97 | the list loses exactly that entry, stays well-formed, and the entry keeps its stale pointers |
| DoublyList.ListDelInit | beken378/common/doubly_list.h:103-107 | as deletion, and the entry becomes an empty list |
| DoublyList.Unlink | beken378/common/doubly_list.h:114-118 | the first half of a move leaves source and target lists well-formed, whether or not they are the same list |
| DoublyList.ListMove | beken378/common/doubly_list.h:114-118 | the entry leaves its list, which may be the target, and becomes the first of the target |
| DoublyList.ListMoveTail | beken378/common/doubly_list.h:125-130 | the same to the end of the target |
| DoublyList.ListEmpty | beken378/common/doubly_list.h:136-139 | true exactly for the empty sequence |
| DoublyList.ListSpliceNonEmpty | beken378/common/doubly_list.h:141-153 | all entries of a non-empty list go to the front of another, in order; the old head keeps dangling into the ring |
| DoublyList.SpliceDistinct | beken378/common/doubly_list.h:141-153 | joining two disjoint lists repeats no node and does not contain the old head |
| DoublyList.ListSplice | beken378/common/doubly_list.h:160-164 | the target becomes the concatenation, an empty source included |
| DoublyList.ListSpliceInit | beken378/common/doubly_list.h:173-180 | the target becomes the concatenation and the source the empty list |
| DoublyList.MoveBeside | beken378/common/doubly_list.h:125-130 | a third list that shares no node with the two is untouched by a move |
| DoublyList.SpliceBeside | beken378/common/doubly_list.h:173-180 | a third list that shares no node with the two is untouched by a splice |
| DoublyList.VisitEntry | beken378/common/doubly_list.h:209-211 | a loop body that unlinks the visited entry keeps the rest of the list in place |
| DoublyList.ForEachSafeDelete | beken378/common/doubly_list.h:209-211 | the safe iteration with a body that unlinks entries visits every original entry once, in order, and leaves the others as the list |
| DoublyList.ListSize | beken378/common/doubly_list.h:243-251 | the walk around the ring ends and counts the entries |
| OsClock.TicksWithinASecond | beken378/rttos/os_clock.c:29-48 | up to one second of single ticks in closed form |
| OsClock.CatchUpIsTicks | beken378/rttos/os_clock.c:29-71 | catching up n ticks at once gives the clock, seconds and countdown of n tick interrupts, for every n and across 32-bit wrap, and keeps the countdown in 1..FCLK_SECOND |
| OsClock.SecondsCountTicks | beken378/rttos/os_clock.c:29-48 | from start-up the seconds counter is the number of whole seconds in the tick count |
| OsClock.FakeClock.FclkHdl | beken378/rttos/os_clock.c:29-48 | one interrupt takes one tick and keeps the countdown in range |
| OsClock.FakeClock.FclkFreertosUpdateTick | beken378/rttos/os_clock.c:50-71 | the catch-up loop leaves the state that n single ticks leave |
| UtilsTimer.CountdownExact | beken378/app/http/utils_timer.c:34-88 | the remaining time reported is max(t - elapsed, 0) if and only if the deadline is at most 0x80000001 ahead or at most 0x7FFFFFFE behind, wherever the clock wraps |
| UtilsTimer.CountdownWorks | beken378/app/http/utils_timer.c:34-103 | timeouts below 2^31 ms: both remaining-time functions and the expiry test are exact |
| UtilsTimer.TwoTimeLefts | beken378/app/http/utils_timer.c:34-103 | the two remaining-time functions differ exactly at distances 0x80000000 and 0x80000001 |
| UtilsTimer.Timer.CountdownMs | beken378/app/http/utils_timer.c:81-88 | the stored deadline makes every later reading within 0x7FFFFFFE ms report the time that is left |
| UtilsTimer.Timer.Spend | beken378/app/http/utils_timer.c:21-32 | the elapsed time since the start, across wrap |
| Base64.RoundTrip | beken378/app/http/utils_httpc.c:57-76 | a decoder as in section 4 of RFC 4648 recovers every byte string from its encoding |
| Base64.StemSnoc | beken378/app/http/utils_httpc.c:62-67 | each further byte completes the one or two digits that its position in the group determines |
| Base64.EncodeIsStemAndEnding | beken378/app/http/utils_httpc.c:57-76 | the encoding by groups is the digits emitted byte by byte followed by the closing digit and padding |
| Base64.PendingBits | beken378/app/http/utils_httpc.c:63-66 | the accumulator may overflow 32 bits, yet the bits still pending are exact |
| Base64.EmitReady | beken378/app/http/utils_httpc.c:64-66 | the inner loop emits exactly the digits that the byte completes and leaves the bits that are pending |
| Base64.Base64Enc | beken378/app/http/utils_httpc.c:57-76 | the output buffer starts with the RFC 4648 encoding of the terminated input, then a terminator, and is untouched behind it |
| Base64.Finish | beken378/app/http/utils_httpc.c:68-75 | left-over bits, padding and terminator complete the encoding |
| Base64.BasicAuth | beken378/app/http/utils_httpc.c:225-233 | a pair is accepted exactly if user and password have fewer than 128 bytes together |
| Base64.AcceptedCredentialsFit | beken378/app/http/utils_httpc.c:225-249 | every accepted pair of user and password fits both stack buffers with newline and terminator, and decodes to the pair |
| Base64.SendAuth | beken378/app/http/utils_httpc.c:235-249 | the line sent is the encoded credentials and a newline, from which a decoder gets user, colon and password back |
| Flash.ProgramBlank | beken378/driver/flash/flash.c:773-838 | programming can only clear bits, so a blank cell takes any value exactly |
| Flash.ProgramBits | beken378/driver/flash/flash.c:773-838 | programming clears bits and sets none |
| Flash.CleanReadsBack | beken378/driver/flash/flash.c:773-838 | a device still clean after a write reads back what was written, in erased sectors only, and nothing else changed |
| Flash.EraseMeans | beken378/driver/flash/flash.c:554-582 | for every address, the sector that holds it is blank afterwards and no other cell changed |
| Flash.EraseNext | beken378/driver/flash/flash.c:554-582 | erasing the sector behind a growing image keeps the image and everything outside |
| Flash.ProgramNext | beken378/driver/flash/flash.c:773-838 | programming into the blank rest of the erased sectors appends to the image and writes blank, erased cells only |
| Flash.AppendNext | beken378/app/tftp/tftpclient.c:496-513 | erase-when-a-sector-starts followed by program extends the image, with as many sectors erased as it has begun |
| TftpStore.CrcSplit | beken378/app/tftp/tftpclient.c:534-540 | the checksum folded packet by packet is the checksum of the concatenation, for any byte step, and one byte is one step |
| TftpStore.HeaderLayout | beken378/app/tftp/tftpclient.h:40-49 | every packet header, field by field at its place in the bytes, is read back, whatever follows it |
| TftpStore.ImgHdWords | beken378/app/tftp/tftpclient.c:543-549 | the eight words of the boot loader's header in their order |
| TftpStore.AcceptAppends | beken378/app/tftp/tftpclient.c:496-540 | a packet inside the window appends its payload to the image and its covered bytes to the checksum |
| TftpStore.PrefixStored | beken378/app/tftp/tftpclient.c:464-567 | after k packets of a good image, flash holds their payloads, in sectors erased in this run, and no image header was written |
| TftpStore.LastAccepted | beken378/app/tftp/tftpclient.c:536-563 | the last packet leaves the checksum over all packets but the final four bytes, and that comparison alone decides about the header |
| TftpStore.Overrun | beken378/app/tftp/tftpclient.c:505-509 | past the end of the window every packet is refused and no header is written |
| TftpStore.HeaderKeepsImage | beken378/app/tftp/tftpclient.c:544-553 | writing the image header leaves an image in other sectors as it is |
| TftpStore.ImageCorrect | beken378/app/tftp/tftpclient.c:464-567 | for in-order packets of 1024 payload bytes and a sector-aligned start: the header is written exactly when the image fits the window and its checksum equals the trailer; an image that fits is in flash whole, every byte, header included, written to a blank cell of a sector erased before, if the header's sector is none of the image's |
| TftpStore.ImageFromBytes | beken378/app/tftp/tftpclient.c:464-567 | the image theorem on the bytes of the packets: the image starts at the address in the last header field, and the boot loader's header, word by word, goes to the address in its own field exactly if the image fits below 0x200000 and the checksum of all but the last four bytes equals them; flash then holds both |
| TftpStore.OtaWriter.StoreBlock | beken378/app/tftp/tftpclient.c:464-567 | store_block on its statics takes the step that the image theorems are about, on every path; outside the window nothing is programmed, only the sector at a sector start is erased |
| TftpWire.DecodeEncode | beken378/app/tftp/tftpclient.c:180-227 | data packets and option acknowledgements of RFC 1350 and RFC 2347 are read back exactly; acknowledgements are not taken for either |
| TftpWire.DecodeBytes | beken378/app/tftp/tftpclient.c:184-258 | which bytes are an option acknowledgement or a data packet, numbers in network order, and that nothing else is |
| TftpWire.AckBytes | beken378/app/tftp/tftpclient.c:105-113 | an acknowledgement is 0, 4 and the block number, high byte first |
| CString.SignedScanned | beken378/app/http/utils_httpc.c:772-832 | a number behind white space and a sign is read, and the text behind it left |
| CString.NothingScanned | beken378/app/tftp/tftpclient.c:217-218 | text that does not begin with a number, a sign or white space gives no number, and 0 to os_strtoul |
| CString.UnsignedScanned | beken378/app/tftp/tftpclient.c:217-218 | os_strtoul for every number of digits: cut at the largest value, negative numbers modulo 2^32 |
| TftpWire.BlksizeRoundTrip | beken378/app/tftp/tftpclient.c:208-220 | a block size sent as RFC 2348 prescribes, among other options, is the one adopted |
| TftpWire.MatchAtMeans | beken378/app/tftp/tftpclient.c:213-216 | the option stands where the bytes of its name and a terminator are, with at least one byte behind |
| TftpWire.FirstMatchDecides | beken378/app/tftp/tftpclient.c:213-226 | the first such place decides about the block size |
| TftpWire.NoOption | beken378/app/tftp/tftpclient.c:213-226 | without such a place the block size stays |
| TftpWire.ScanOptions | beken378/app/tftp/tftpclient.c:208-220 | the scan adopts the value behind the first occurrence of the option name, white space, sign and overflow treated as strtoul does, and keeps the old one if there is none |
| TftpWire.RequestRead | beken378/app/tftp/tftpclient.c:82-105 | a server that splits the read request at its terminators reads back file name, mode and both options (RFC 1350, section 5, and RFC 2347) |
| TftpProtocol.RequestOnWire | beken378/app/tftp/tftpclient.c:78-103 | the request begins with 0, 1, and a server takes the rest apart into the file name and the words octet, timeout, 5, blksize, 1048 |
| TftpProtocol.HandleAnswers | beken378/app/tftp/tftpclient.c:160-315 | for every packet, byte by byte, what it is answered with and what it changes: a data packet from the bound server is answered with its own two number bytes, unless it opens the transfer with a block other than 1, and stored unless it has the number stored last |
| TftpProtocol.TftpClient.constructor | beken378/app/tftp/tftpclient.c:336-372 | a transfer starts unbound, on the well-known port, with 512-byte blocks |
| TftpProtocol.TftpClient.TftpSend | beken378/app/tftp/tftpclient.c:65-140 | the bytes transmitted, within the 700-byte buffer: before any answer a request that a server takes apart into file name, mode and options; afterwards 0, 4 and the current block number |
| TftpProtocol.TftpClient.TftpHandler | beken378/app/tftp/tftpclient.c:160-315 | the handler of raw packets takes the step of the protocol model, history of store_block calls included, and answers a block with its own number bytes |
| TftpProtocol.TftpClient.TftpTimeout | beken378/app/tftp/tftpclient.c:317-334 | a timeout changes nothing but its count and resends request or acknowledgement, ten times in all |
| TftpProtocol.ChunksMakeTheFile | beken378/app/tftp/tftpclient.c:287-313 | full blocks and one short block make up the file |
| TftpProtocol.FirstBlockFollowed | beken378/app/tftp/tftpclient.c:229-307 | the first data packet binds client and session, and is block 1 |
| TftpProtocol.NextBlockFollowed | beken378/app/tftp/tftpclient.c:229-307 | a data packet during the transfer is the last block again or the next one |
| TftpProtocol.OackFollowed | beken378/app/tftp/tftpclient.c:201-228 | an option acknowledgement sets the block size the server uses, and never reopens a transfer when channels keep the order |
| TftpProtocol.ForeignIgnored | beken378/app/tftp/tftpclient.c:169-173 | a packet from another session's port changes nothing but the destination of the next resend |
| TftpProtocol.RunKeeps | beken378/app/tftp/tftpclient.c:160-334 | the joint invariant of client, server sessions and channels over every interleaving |
| TftpProtocol.TransferSafe | beken378/app/tftp/tftpclient.c:160-334 | with lockstep servers and FIFO channels that lose and duplicate: the blocks given to store_block are always the file's first blocks, each once, in order, and success is reached exactly when all were stored |
| TftpProtocol.AllCanBeLost | beken378/app/tftp/tftpclient.c:405-420 | from every state everything under way can be lost |
| TftpProtocol.AnyCanBeRepeated | beken378/app/tftp/tftpclient.c:405-420 | and every packet delivered a second time |
| TftpProtocol.LiveFinishes | beken378/app/tftp/tftpclient.c:160-315 | from every state with a session that the client hears, delivering what is under way, acknowledging and resending ends the transfer without further loss |
| TftpProtocol.TransferCompletes | beken378/app/tftp/tftpclient.c:160-334 | from every reachable state, whatever was lost, repeated or left under way, success is still reachable for every file of fewer than 65536 blocks |
| TftpProtocol.LostAckResent | beken378/app/tftp/tftpclient.c:317-334 | after a lost acknowledgement the timer makes the server go on if and only if fewer than ten timeouts happened and the last packet came from it |
| TftpProtocol.ResendsAtMostTen | beken378/app/tftp/tftpclient.c:317-334 | over any run exactly the first ten timeouts send again |
| TftpProtocol.PacketKeepsOrder | beken378/app/tftp/tftpclient.c:229-300 | in every client state, a packet of the file keeps the stored blocks in order if and only if it is not stored or is the next block |
| TftpProtocol.OlderBlockMisorders | beken378/app/tftp/tftpclient.c:279-290 | during a transfer the order is kept if and only if the block is not older than the last one |
| TftpProtocol.LateOptionAck | beken378/app/tftp/tftpclient.c:201-277 | after a late option acknowledgement the next block keeps the order if and only if it is not block 1, is dropped unanswered, and the one after it keeps the order if and only if it is the block that was due before |
| TftpProtocol.OrderedUnlessMisordered | beken378/app/tftp/tftpclient.c:160-315 | over every list of packets of one server, in any order, the stored blocks are always the file's first ones if and only if no packet is stored that is not the next block |
| TftpProtocol.ReorderingStoresTwice | beken378/app/tftp/tftpclient.c:279-290 | the shortest list that breaks the order: blocks 1, 2, 1 |
| TftpOta.FlashFollowsTransfer | beken378/app/tftp/tftpclient.c:160-567 | at every moment of every protocol run before its end, for a file that makes a good image: no image header is written, and flash holds the payloads of exactly the blocks stored, until one lies past the window and is refused |
| TftpOta.UpgradeCorrect | beken378/app/tftp/tftpclient.c:160-567 | when the client reports success, the header has been written if and only if the file fits and its checksum is right, and a file that fits is in flash whole, if the header's sector is none of the image's |
| TftpOta.UpgradeFromBytes | beken378/app/tftp/tftpclient.c:160-567 | the upgrade on bytes: for a file that is the packets of an image, once the client reports success the boot loader's header has been written, word by word, at the address in the packets exactly if the image fits and the checksum is right, and flash holds the image from the address in the packets on |
| TftpOta.SizesOfFile | beken378/app/tftp/tftpclient.c:464-567 | with the block size that the client asks for, the packets of a file have the sizes the image writer needs if and only if the file length modulo the block size is at least 24 |
| TftpOta.ShortLastPacket | beken378/app/tftp/tftpclient.c:513 | for every other file and block size the last packet is shorter than its header, the length for the flash write wraps around, and no image of the file is a good one |
| HttpFlash.FedGrows | beken378/app/http/utils_httpc.c:502-525 | a piece joins the tail or completes a block that is written at once |
| HttpFlash.FedHolds | beken378/app/http/utils_httpc.c:502-525 | at every moment of a download that fits, flash followed by the buffered tail is the input |
| HttpFlash.WrAddress | beken378/app/http/utils_httpc.c:438-454 | a block is written exactly if it ends before the end of the partition, otherwise the address stays |
| HttpFlash.AddressLags | beken378/app/http/utils_httpc.c:426-456 | the write address stays inside the partition, and falls behind for good once the input reaches its end |
| HttpFlash.ImageComplete | beken378/app/http/utils_httpc.c:727-739 | after the final flush the address has reached the end of the image if and only if the input is shorter than the partition, and then flash holds it |
| HttpFlash.HoldsMeans | beken378/app/http/utils_httpc.c:426-456 | such an image reads back from the cells, went to erased and blank cells only, and nothing outside the partition changed |
| HttpFlash.StaysInside | beken378/app/http/utils_httpc.c:426-436 | no erase and no write falls outside the partition, for any blocks |
| HttpFlash.DownloadStaysInside | beken378/app/http/utils_httpc.c:426-436 | the same for the whole download, however long |
| HttpFlash.HttpData.HttpFlashInit | beken378/app/http/utils_httpc.c:459-487 | a fresh writer at the start of the partition with an empty tail |
| HttpFlash.HttpData.HttpFlashWr | beken378/app/http/utils_httpc.c:426-456 | erase at a sector start, then write or refuse, as the image lemmas assume |
| HttpFlash.HttpData.HttpWrToFlash | beken378/app/http/utils_httpc.c:502-525 | pieces of any lengths leave device and tail as one piece with the same bytes would, tail below 1024 bytes |
| HttpFlash.HttpData.FlushTail | beken378/app/http/utils_httpc.c:727-739 | the flush completes what the pieces began |
| HttpDownload.TakeTurn | beken378/app/http/utils_net.c:194-205 | one turn on a connection that has not ended keeps the account of bytes taken and bytes the turns can still bring |
| HttpDownload.HalTcpRead | beken378/app/http/utils_net.c:165-239 | in draining mode the loop hands every received byte to the flash writer once and in order; as long as no more than the expected bytes are outstanding its result is decided for every list of turns: all expected bytes if they come before the deadline and the first break, otherwise a connection error at the deadline, and at a break what came or an error; in plain mode it returns the first piece, or an error if none arrives, and touches nothing of the flash writer |
| HttpDownload.Receive | beken378/app/http/utils_net.c:194-205 | one recv consumes its bytes from the stream and hands exactly them on |
| HttpDownload.HttpclientRecv | beken378/app/http/utils_httpc.c:395-423 | counts and error codes of the read, with conservation of the stream kept |
| HttpDownload.DrainBody | beken378/app/http/utils_httpc.c:668-704 | the loop conserves the body, never succeeds before the announced length has come, and for an exact body ends as its first part and the turns decide, breaks and repeated reads included |
| HttpDownload.RetrieveContent | beken378/app/http/utils_httpc.c:650-744 | in every case the flash writer got what came with the headers and whatever left the connection, once and in order; success is reported only when at least the announced length has come, and flash is then flushed; for a peer that sends exactly the announced length the end is decided for every list of turns, and success leaves nothing outstanding |
| HttpDownload.LastingConnection | beken378/app/http/utils_net.c:165-239 | on a connection that lasts until the deadline the download succeeds if and only if the body arrives |
| HttpDownload.ArrivedIsSuccess | beken378/app/http/utils_net.c:165-239 | a body that arrives before the first close or failure is a success, whatever happens behind it |
| HttpDownload.BreakHalfWay | beken378/app/http/utils_httpc.c:666-704 | after a break half way a body that still arrives completely succeeds if and only if the connection breaks once more, because every read waits for the total outstanding at the start |
| HttpHeaders.ParsePrefix | beken378/app/http/utils_httpc.c:790-847 | once decided, headers do not depend on bytes that arrive later, which only extend the body |
| HttpHeaders.LineLimit | beken378/app/http/utils_httpc.c:800-820 | a line whose end is not among the first 255 characters is refused once so many have come |
| HttpHeaders.LineScans | beken378/app/http/utils_httpc.c:827 | the scan of a field line, with any blanks or none behind the colon, returns the name and the first 31 characters of the value if the name has 1 to 31 characters and the value is not blank, and fails otherwise |
| HttpHeaders.ParsesFormat | beken378/app/http/utils_httpc.c:825-847 | a header section in the format of RFC 7230, section 3.2, whose lines fit the buffer is understood field by field, with the body behind it, if and only if every name has at most 31 characters and no value is blank; otherwise the response is refused |
| HttpHeaders.ContentLengthRead | beken378/app/http/utils_httpc.c:830-832 | a Content-Length in decimal, behind any blanks, is understood and read back exactly |
| HttpHeaders.StatusLineRead | beken378/app/http/utils_httpc.c:772 | the number behind the version is the status code, for every version, code and reason |
| HttpHeaders.ChunkedRead | beken378/app/http/utils_httpc.c:833-839 | a Transfer-Encoding field with either spelling of chunked switches to chunks |
| HttpHeaders.OtherFieldsRead | beken378/app/http/utils_httpc.c:830-840 | no other value and no field of another name changes anything |
| HttpHeaders.LengthFieldShape | beken378/app/http/utils_httpc.c:827 | a Content-Length field in decimal always has the shape of a header line that fits the buffer |
| HttpHeaders.PendingWithinLine | beken378/app/http/utils_httpc.c:800-847 | while headers of lines up to a width are undecided, at most one character more than the width waits in the buffer |
| HttpResponse.Refill | beken378/app/http/utils_httpc.c:800-817 | one plain read puts the first piece, up to the room, behind the buffered bytes, or changes neither buffer nor stream |
| HttpResponse.TakeLine | beken378/app/http/utils_httpc.c:800-847 | the first line of the buffer is understood and moved out, or the headers end, or the line is refused |
| HttpResponse.ReadsUntilDecided | beken378/app/http/utils_httpc.c:790-817 | if m more bytes decide the headers, and the turns bring m bytes before the connection ends, counting in each no more than the buffer always has room for, the headers get decided, and the turns left bring what was not read |
| HttpResponse.EnoughReadsDecide | beken378/app/http/utils_httpc.c:790-817 | as many reads as the headers have bytes are enough whatever the lines |
| HttpResponse.FormatArrives | beken378/app/http/utils_httpc.c:790-817 | an ordinary header section is decided once its bytes have arrived, each piece counted at most up to the room behind its longest line |
| HttpHeaders.SegmentationIndependent | beken378/app/http/utils_httpc.c:790-847 | two ways of cutting one stream that both decide the headers decide them alike and leave the same body |
| HttpResponse.ReadHeaders | beken378/app/http/utils_httpc.c:790-847 | exactly the bytes needed to decide the headers are read, as long as turns bring them, and the result is the decision on the bytes read: a connection error if and only if they are undecided |
| HttpResponse.ResponseParse | beken378/app/http/utils_httpc.c:751-855 | segmentation independence of headers, length and left-over body, provided only that the status line came with the first read; a connection error if and only if the bytes read before the deadline do not decide the headers; the status code decides between success and not found |
| HttpHeaders.StatusLineMustComeFirst | beken378/app/http/utils_httpc.c:762-766 | the first read finds the end of the status line exactly if it contains it |
| HttpOta.PlainResponse | beken378/app/http/utils_httpc.c:825-847 | a response with an HTTP/1 status line of code 200, any reason, and a single Content-Length field announces its body |
| HttpOta.CarriedParses | beken378/app/http/utils_httpc.c:751-847 | a first read of m bytes shows the status line exactly if it contains it, and the whole stream then means status 200, the announced length and the body |
| HttpOta.HeadersArrive | beken378/app/http/utils_httpc.c:790-817 | the headers of an announced response are decided when their bytes arrive, each piece counted at most up to the room behind the longest line, and the turns left bring what was not read |
| HttpOta.HeadersRead | beken378/app/http/utils_httpc.c:790-855 | the header part ends in a connection error if and only if what arrived does not decide the headers, and otherwise has read the announced length and exactly the first part of the body |
| HttpOta.ResponseArrives | beken378/app/http/utils_httpc.c:887-923 | an announced response whose status line comes first, whose bytes all arrive before the connection ends and whose part of the body beside the headers fits the response buffer counter is downloaded with success, whatever follows it |
| HttpOta.FlushedHolds | beken378/app/http/utils_httpc.c:727-739 | after the flush the address reached the end of the body if and only if it is shorter than the partition, and then flash holds it, cleanly written, with nothing changed outside |
| HttpOta.RecvResponse | beken378/app/http/utils_httpc.c:887-923 | from the first read to flash, one connection throughout, every course of it included: success is reported only when the announced length has come, and flash then holds what came if and only if it is shorter than the partition; for an announced response in any segmentation the end is decided by the turns, refusal of a split status line included, and on success exactly the announced body has come; a first read that holds a status line with another code leaves flash alone |
| VideoBuffer.RecvSignals | beken378/app/video_work/video_buffer.c:74-182 | any packet signals the reader exactly when it decides the frame, and never touches a decided one |
| VideoBuffer.RightImageIs | beken378/app/video_work/video_buffer.c:123-160 | the byte comparisons accept exactly the frames made of start marker, body, end marker, one more byte and a trailer with the matching length |
| VideoBuffer.NextKeepsReader | beken378/app/video_work/video_buffer.c:74-348 | every callback and every reader step keeps the semaphore handshake |
| VideoBuffer.AppendAssembles | beken378/app/video_work/video_buffer.c:107-118 | appending a packet keeps the buffer the front of the frame if and only if it does not fit or has the payload that comes next |
| VideoBuffer.StepWhole | beken378/app/video_work/video_buffer.c:74-182 | exactly which step spoils the buffer: an aliasing packet with room for it and another payload |
| VideoBuffer.AssembledUnlessMixed | beken378/app/video_work/video_buffer.c:74-182 | over any run, packets lost, repeated and reordered at will, the buffer is always the front of the frame last started if and only if no such packet is taken |
| VideoBuffer.AppendKeeps | beken378/app/video_work/video_buffer.c:107-163 | the expected packet extends the assembled frame by its payload, and the last or overflowing one is judged rightly |
| VideoBuffer.DeliverKeeps | beken378/app/video_work/video_buffer.c:74-182 | any packet that is not taken for one of another frame keeps contents, meaning of the status, and freshness |
| VideoBuffer.StepRight | beken378/app/video_work/video_buffer.c:74-182 | exactly which step makes contents or status wrong: an aliasing packet whose effect differs from that of the frame's own next packet |
| VideoBuffer.RightUnlessMisled | beken378/app/video_work/video_buffer.c:74-182 | over any run, contents and status are right at every moment if and only if no such packet is taken |
| VideoBuffer.CompleteUnlessTruncated | beken378/app/video_work/video_buffer.c:120-163 | over any run, the buffer is always the front of one frame and GET always means a complete one with both markers and the right trailer, if and only if no packet mixes or truncates |
| VideoBuffer.ReassemblyCorrect | beken378/app/video_work/video_buffer.c:74-182 | on every run in which no packet misleads, whatever was lost, repeated or reordered: the buffer holds the first packets of one frame, GET means a complete frame with both markers and the right trailer, and ERR and FULL mean what they say |
| VideoBuffer.HandshakeCorrect | beken378/app/video_work/video_buffer.c:290-348 | on every run: at most one token and one signal per armed buffer, a woken reader finds a decided frame, and each error code means its state; if no packet mixes or truncates, success returns a whole frame with its markers and trailer, all of whose payloads arrived after this read armed its buffer, in the frame's own packets if none was aliased |
| VideoBuffer.OrderlyNeverAliased | beken378/app/video_work/video_buffer.c:91-109 | packets in the sender's order are never aliased unless the first packets of 256 frames in a row are lost |
| VideoBuffer.LossCanMix | beken378/app/video_work/video_buffer.c:91-109 | of every sender whose frames 0 and 256 differ in the second packet, those packets are mixed when everything in between is lost |
| VideoBuffer.LossCanTruncate | beken378/app/video_work/video_buffer.c:91-157 | of every sender whose frame 256 ends where the front of frame 0 passes the check, loss alone makes GET announce an incomplete frame |
| VideoBuffer.MixesExactlyOnAlias | beken378/app/video_work/video_buffer.c:91-109 | a packet of another frame is taken as continuation exactly when frame numbers agree modulo 256 and the packet number and the room fit |
| VideoBuffer.ReaderCodeIsSteps | beken378/app/video_work/video_buffer.c:300-348 | the reader's steps in a row have the effect of its straight-line code |
| VideoBuffer.PacketCounter.AddPktHeader | beken378/app/video_work/video_buffer.c:55-72 | packets of a frame are numbered from 1, the last one is marked and restarts the numbering |
| VideoBuffer.Receiver.constructor | beken378/app/video_work/video_buffer.c:207-217 | the state after opening |
| VideoBuffer.Receiver.JudgeFrame | beken378/app/video_work/video_buffer.c:123-163 | the byte comparisons accept exactly the frames with both markers and the right trailer, and the reader is signalled |
| VideoBuffer.Receiver.TakePacket | beken378/app/video_work/video_buffer.c:107-173 | the expected packet is copied behind the others and judged, or found too long |
| VideoBuffer.Receiver.RecvVideoData | beken378/app/video_work/video_buffer.c:74-182 | one callback on the shared buffer takes the step the theorems are about |
| VideoBuffer.Receiver.Arm | beken378/app/video_work/video_buffer.c:300-311 | stale tokens are gone when the buffer is armed |
| VideoBuffer.Receiver.Conclude | beken378/app/video_work/video_buffer.c:313-357 | error code and length follow the frame's state or the timeout, code by code, and the receiver is disarmed |
| RxThrottle.NextKeepsCount | beken378/app/app.c:428-457 | every atomic step of senders and core thread keeps the counter equal to the notifications under way |
| RxThrottle.ThrottleInvariant | beken378/app/app.c:127-139 | in every reachable state the counter is RX messages queued plus senders between increment and push result plus messages popped and not decremented, within 0..2, so the handler's guard always holds |
| RxThrottle.StepCovers | beken378/app/app.c:428-457 | exactly which step leaves a call without a pending notification |
| RxThrottle.CoveredUnlessLossyUndo | beken378/app/app.c:428-457 | over any run, every call stays covered if and only if no failed push is undone while it is the last notification owed |
| RxThrottle.NoLostWakeUp | beken378/app/app.c:439-457 | if no push fails, every call, early returns included, is covered by a notification whose event has not started, and nothing is owed at rest |
| RxThrottle.CallsGetServed | beken378/app/app.c:127-138 | from every reachable state, once no more calls come, senders and core thread come to rest, and unless a push failed every call has been followed by an event |
| RxThrottle.EarlyReturnCovered | beken378/app/app.c:440-444 | a call that returns early leaves two notifications under way |
| RxThrottle.FailedPushLosesWakeUp | beken378/app/app.c:449-456 | a reachable state in which a call is owed an event that nothing will start |
| RxThrottle.WifiCore.CountIn | beken378/app/app.c:439-447 | the first critical section admits a sender exactly below the limit |
| RxThrottle.WifiCore.PushRx | beken378/app/app.c:449 | a push either queues the notification or leaves the sender to undo its increment |
| RxThrottle.WifiCore.CountOut | beken378/app/app.c:450-456 | the undo takes the sender's share back and never makes the counter negative |
| RxThrottle.WifiCore.PopMessage | beken378/app/app.c:631-634 | the dispatch loop takes the oldest message, which decides whether the handler runs |
| RxThrottle.WifiCore.CountHandled | beken378/app/app.c:127-136 | the handler always decrements |
| RxThrottle.WifiCore.StartEvent | beken378/app/app.c:138 | starting the event serves every call made before |
| Tlv.SearchByType | beken378/app/net_work/video_demo_softap.c:656-687 | wherever its 32-bit walk ends, the search returns the address of a record of the type, or 0 |
| Tlv.SearchFindsFirst | beken378/app/net_work/video_demo_softap.c:656-687 | in a well-formed container the search ends and returns the address of the first record of the type, 0 exactly if there is none |
| Tlv.WalkFinds | beken378/app/net_work/video_demo_softap.c:667-684 | the same from any record on |
| Tlv.NeverEndsIffCycle | beken378/app/net_work/video_demo_softap.c:667-679 | the search goes on for ever if and only if it comes back to an address it has tried |
| Tlv.NeverEndsNever | beken378/app/net_work/video_demo_softap.c:667-679 | a search that goes on for ever ends after no number of advances |
| Tlv.EndsWhereItStops | beken378/app/net_work/video_demo_softap.c:667-684 | a search that went on for n advances has ended exactly at the end of the container or at a record of the type |
| Tlv.SelfFollowingRecord | beken378/app/net_work/video_demo_softap.c:676-677 | a length of 0xFFFFFFF8 in front of the wanted record keeps the search from ever ending |
| Tlv.ForwardWalkEnds | beken378/app/net_work/video_demo_softap.c:667-679 | in an arbitrarily damaged container the search ends, after at most one advance for every eight bytes, if no length that it passes wraps the address |
| Tlv.NestedContainer | beken378/app/net_work/video_demo_softap.c:705-714 | the address of a class record starts the search among the class's fields |
| Tlv.FieldsRecovered | beken378/app/net_work/video_demo_softap.c:714-760 | the five fields read into the struct are the encoded ones, even when payloads spill over into later fields |
| Tlv.RecordBytes | beken378/app/net_work/video_demo_softap.c:72-78 | the five field records in bytes |
| Tlv.ConfigImage | beken378/app/net_work/video_demo_softap.c:633-764 | a table byte by byte, marker, lengths, general class and fields, anywhere in flash, is well formed for every set of parameters |
| Tlv.SearchOptTab | beken378/app/net_work/video_demo_softap.c:633-654 | 1 exactly if the partition starts with the table's marker |
| Tlv.ReadFlash | beken378/app/net_work/video_demo_softap.c:720-721 | the bytes read replace exactly that stretch of the struct |
| Tlv.ReadField | beken378/app/net_work/video_demo_softap.c:714-721 | a field is copied from the first record of its type, or nothing is written |
| Tlv.ReadFields | beken378/app/net_work/video_demo_softap.c:714-763 | fields before the first missing one are written, and 0 is returned exactly if none is missing |
| Tlv.GetGeneralParameters | beken378/app/net_work/video_demo_softap.c:689-764 | on every well-formed nested image all encoded parameters are recovered; -1 with nothing written without marker, destination or class, and with the earlier fields written if one is missing |

## Left out

- Chunked transfer decoding in httpclient_retrieve_content: it re-initialises the flash writer for every chunk and moves an uninitialised buffer, so the code decides no specification.
- httpclient_get_info and the request it assembles beyond the authorization line.
- The variant of the HTTP writer compiled with CFG_SUPPORT_OTA_TFTP set to 1, which passes 1048-byte packets to store_block.
- http_flash_deinit, which clears the whole structure, flash handle included, before closing it, and the retry logic around a download.
- Reading back and printing after a flash write (tftpclient.c, http_flash_wr), and all log output.
- TftpStore.OtaWriter.StoreBlock: packets shorter than the 24-byte header or longer than header plus 1024 bytes are excluded; for them the code computes lengths that leave the packet or its buffer.
- TftpProtocol.TransferSafe: assumes fewer than 65536 blocks (store_block takes block 0 as a restart, so wrapped numbers mean something else) and channels that keep the order; PacketKeepsOrder and OrderedUnlessMisordered say exactly what happens without order.
- TftpOta.FlashFollowsTransfer: the same files as for UpgradeCorrect, whose last packet store_block reads beyond.
- TftpOta.UpgradeCorrect: files whose length modulo the block size is below 24, for which store_block reads and computes beyond its packet, as ShortLastPacket states.
- TftpWire.ScanOptions: a value that is not terminated within the packet, for which the code reads on into the rest of its buffer.
- The two error packets of TftpSend, whose states the client never enters.
- The counter of block-number wraps, which is only printed, and the timer and socket set-up; timer, handler and server step are atomic.
- kfifo_alloc, whose comment promises a rounding that its code does not do; Kfifo.KFifo.KfifoInit leaves out sizes that are not a power of two, at which the code stops the system.
- Sfifo.SFifo.SfifoInit: requests of 2^30 bytes and more, for which it does not return, as SizeSearchEnds states (the doubling is taken as 32-bit wrap-around).
- Directory listings and commands of the FTP server, its callbacks and the closing of its connections; vfs, lwIP and tcp_write enter as arbitrary answers.
- DoublyList: the entry macros that compute container addresses from field offsets.
- Base64.Base64Enc: the left shift of a signed int past its sign bit, undefined in C, is taken as the 32-bit wrap-around that the target compiler produces; conversely characters are unsigned bytes.
- UtilsTimer: iotx_time_left reads the clock twice; both functions are stated for one sample. The HTTP deadline itself enters HttpDownload as the end of the list of turns.
- HttpHeaders: numbers beyond the range of int, for which sscanf has no defined result; wrap-around is used.
- The hardware side of flash (protection, timing, 32-byte write bursts below the level of cells) and of DMA copies.
- Frames of fewer than seven bytes, for which the marker check reads in front of the buffer; video_buffer_close; a timed-out reader that races with the inside of one callback.
- VideoBuffer.ReassemblyCorrect: frames of more than 256 packets, whose numbers do not fit the header byte.
- RxThrottle: what rxl_cntrl_evt does, and all other message types of the core thread.
- Tlv.GetGeneralParameters: field payloads that reach past the end of the struct, which the code would write there; the flash handle left open on the error paths; the reader of the access-point parameters, which repeats the pattern.
- Command line, LED, audio, MAC and efuse access, system configuration and thread start-up, which hold no algorithm of interest.
