# Verified model of the Beken FreeRTOS SDK's stateful cores

This project models the parts of the SDK whose correctness depends on long runs, wrapping
counters, shared buffers or interleavings, and proves what those parts promise. Each file is
one component. Code that changes state in place is a class or an array method, proved against
a function of the inputs or of the old state; theorems about whole runs are lemmas about those
functions. `dafny verify dfyconfig.toml` checks everything.

| file | component |
|---|---|
| `Bytes.dfy` | bytes, 32-bit wrap-around, little-endian words, masks, memory copies |
| `NorFlash.dfy`, `NorImage.dfy` | NOR flash (erase sets a 4 KiB sector to 0xFF, program ANDs) with an operation log; images written block by block |
| `HttpFlash.dfy`, `HttpHeader.dfy`, `HttpSocket.dfy`, `HttpClient.dfy` | HTTP download: re-chunking into flash, header section, receive loops, and all of them in place on one set of fields |
| `ImageStore.dfy`, `Tftp.dfy`, `TftpSafety.dfy`, `TftpProgress.dfy` | TFTP download: package sink, client, safety and progress of the client-server system over lossy FIFO channels |
| `Ring.dfy`, `Kfifo.dfy`, `Sfifo.dfy` | the two byte queues over circular buffers |
| `Ftpd.dfy` | RETR and LIST/NLST sending side of the FTP daemon |
| `VideoBuffer.dfy` | packet-to-frame reassembly between the camera and one waiting reader |
| `CoreBus.dfy` | RX notification counter and TX buffer references on the core thread's queue |
| `CircularList.dfy` | the intrusive doubly linked list |
| `Base64.dfy` | Base64 encoder and basic authentication |
| `Tlv.dfy` | two-level configuration table in flash |
| `Clock.dfy` | bulk ticks and deadlines on a wrapping clock |

## Environment

TCP, UDP, flash, the file system, the clock and the scheduler are environments: the socket's
behaviour is a list of events, `tcp_write`, `tcp_sndbuf`, `vfs_read` and `vfs_eof` are choices
per callback, channels lose and duplicate by explicit steps, threads interleave at
interrupt-disabled regions and queue calls. The CRC polynomial (`co_crc32` is only present as a
binary) and the `sscanf` grammars of the HTTP status line and header fields are function
parameters; nothing is assumed about them. `vfs_eof` is true only at the end of the file and
`vfs_readdir` reports the end only after the last entry.

## Findings

- A body exactly as long as the OTA partition passes the size test but its last block is never
  programmed, because the bounds test is strict: `HttpFlash.ImageExactly` gives the exact
  condition, `HttpFlash.FullPartitionLosesItsTail` an instance.
- `httpclient_retrieve_content` returns `HTTP_RETRIEVE_MORE_DATA`, which `httpclient_common`
  takes for success, without flushing the staged tail. For every `response_buf_len`, of the two
  results it takes for success this is the one if and only if the bytes that arrived are not
  exactly the announced ones and both numbers are at least `response_buf_len` - 1, or the bytes
  that came along with the headers alone are (`HttpSocket.OutcomeExact`): the connection may have
  closed early (`HttpSocket.EarlyCloseIsMoreData`) or one byte too many may have come along
  (`HttpSocket.ExtraByteIsMoreData`, and down to flash `HttpClient.MoreDataWithoutImage`). For
  a server that closes behind at most the announced bytes the number sent decides alone
  (`HttpSocket.ClosingServer`), and `HttpFlash.BrokenOffExactly` says when the image is in
  flash nevertheless.
- Bytes behind the announced ones are written too. If they make the stream reach the partition's
  end, the block there is refused and the end of the stream may be written in its place:
  `HttpFlash.DownloadExactly` says exactly when the announced body is still right.
- `store_block` erases before it tests the address: a refused call leaves flash alone if and only
  if its address is not on a sector boundary or lies off the device
  (`ImageStore.RefusedCallExactly`, over every run), so a first packet of zeros costs sector 0
  (`ImageStore.RefusedPacketErasesSectorZero`).
- A client that waits for block 1 passes over another block, but stores it when it is repeated
  (`Tftp.FirstBlockTwice`), so an OACK that is delayed into the data phase makes it store its
  last block twice (`Tftp.LateOptionsStoreTwice`): the channels have to keep their order.
- From block 65536 on the block number handed to `store_block` is wrong, and exactly from there
  (`TftpSafety.NumberingExact`).
- A finished download has handed `store_block` a block below 24 bytes, on which its lengths wrap,
  if and only if the file's last block is shorter than that (or the negotiated block size is):
  `TftpSafety.TakableExactly`. A package whose last packet fills a block is such a file
  (`TftpProgress.FullLastPacketHandsOverNothing`).
- The TFTP timeout count is never reset. A download can still be completed from a reachable state
  if and only if the server has answered, a request is under way or fewer than ten timeouts have
  passed (`TftpProgress.CompletableExactly`); losing the first ten requests strands it
  (`TftpProgress.LostRequests`). What the client's own retransmissions can still complete when the
  server never repeats itself is given exactly by `TftpProgress.UnaidedExactly`.
- A transfer can end without reply 226: `send_msg` drops it when the control queue has no room,
  and exactly then if the control connection makes no progress meanwhile
  (`Ftpd.Session.Serve`, with the instance `Ftpd.FullQueueDropsReply`).
- A well-marked frame that fits reaches a waiting reader if and only if it has at most 255 packets
  and either its id is new to the reader or the reader is in the middle of a frame of that id and
  holds exactly the first packets of this one (`VideoBuffer.FrameDelivered`). A reader that holds
  packets of another frame with the same id is handed a mixture of both with error 0 if it passes
  the marker test (`VideoBuffer.ResumedFrame`, with the instance `VideoBuffer.MixedFrame`).
- With a full queue a sender can be refused although no `rxl_cntrl_evt` call is owed
  (`CoreBus.RefusalWithoutEvent`); `CoreBus.RefusedExactly` gives the exact condition.
- The loop of `sfifo_init` ends if and only if the request is below 2^30
  (`Sfifo.InitEndsExactly`): from there on its size runs through the sign bit to 0.

## Model

| member | source | states |
|---|---|---|
| HttpFlash.FeedAppend | beken378/app/http/utils_httpc.c:503-526 | writing a then b leaves the same flash, address and pending bytes as writing a followed by b, from every staging state |
| HttpFlash.FeedIsWriteBlocks | beken378/app/http/utils_httpc.c:503-526 | staged writing equals cutting pending bytes plus data into 1024-byte blocks from their start |
| HttpFlash.DownloadSafe | beken378/app/http/utils_httpc.c:427-457 | for every stream of any length the address stays inside the partition, programs stay inside it, erases start inside it, and no cell outside the sectors it covers changes |
| HttpFlash.DownloadWritten | beken378/app/http/utils_httpc.c:427-526 | a body shorter than the partition is in flash byte for byte, every sector erased before it is programmed, cells behind the last touched sector unchanged |
| HttpFlash.DownloadOver | beken378/app/http/utils_httpc.c:427-526 | what a stream of at least the partition's length leaves: the blocks in front of the refused one and, behind them, at most the end of the stream |
| HttpFlash.DownloadExactly | beken378/app/http/utils_httpc.c:427-526 | for every stream of any length and every body it starts with: the body is in flash if and only if the stream is shorter than the partition or the bytes of the refused block happen to be there |
| HttpFlash.ImageExactly | beken378/app/http/utils_httpc.c:439-455 | for every accepted length, the image is right if and only if it is shorter than the partition or its last block is all 0xFF; the address reaches the end of the body if and only if it is shorter |
| HttpFlash.FullPartitionLosesItsTail | beken378/app/http/utils_httpc.c:439-440 | a 4 KiB image for a 4 KiB partition that is accepted and not stored |
| HttpFlash.FeedWritten | beken378/app/http/utils_httpc.c:503-526 | before the closing write flash holds exactly the whole blocks of the stream, the rest is staged and no sector behind them has been touched, until a block is refused |
| HttpFlash.BrokenOffExactly | beken378/app/http/utils_httpc.c:503-526 | for every stream: without the closing write a body is in flash if and only if its bytes behind the stored blocks equal what the erased or untouched cells there read |
| HttpSocket.ReadingBound | beken378/app/http/utils_net.c:192-247 | a read stays below what it waits for plus two recv sizes |
| HttpSocket.ReadingDelivers | beken378/app/http/utils_net.c:192-252 | a network without faults fills every read, with interruptions and empty selects allowed |
| HttpSocket.ReadingCloses | beken378/app/http/utils_net.c:192-252 | a peer that closes early makes the read return all that came, or -1 if nothing did |
| HttpSocket.ReadingBreaks | beken378/app/http/utils_net.c:204-252 | the first turn that is neither idle nor delivers ends the read: with -2 for a failing recv or select and -1 for a closed connection if nothing was received, with what was received otherwise, with 0 for a select of 0, and with the connection error at the deadline |
| HttpSocket.ReceivingEnds | beken378/app/http/utils_httpc.c:679-719 | for every network behaviour and response buffer: success means exactly the announced bytes, or a bounded surplus on fewer than the buffer holds; more-data means another number and both at least that |
| HttpSocket.OutcomeExact | beken378/app/http/utils_httpc.c:679-719 | for every response buffer, success and more-data are told apart, if and only if, by the number of bytes that arrived |
| HttpSocket.ClosingServer | beken378/app/http/utils_httpc.c:679-719 | for a server that closes behind at most the announced bytes over a network without faults, the number sent alone decides between success, more-data and connection error |
| HttpSocket.CompleteSucceeds | beken378/app/http/utils_httpc.c:679-719 | a true length over a delivering network always succeeds and takes everything |
| HttpSocket.FetchingBreaks | beken378/app/http/utils_httpc.c:679-719 | a download that still waits ends in a connection error at the first failing recv, failing select, closed connection or deadline; a select of 0 leaves its outcome as if it had not happened |
| HttpSocket.EarlyCloseIsMoreData | beken378/app/http/utils_httpc.c:681-688 | 2000 announced, 1500 sent: more-data |
| HttpSocket.ExtraByteIsMoreData | beken378/app/http/utils_httpc.c:681-688 | 1100 announced, 1101 sent: more-data |
| HttpClient.Client.constructor | beken378/app/http/utils_httpc.c:43-53 | the initial state: no download active, empty response buffer |
| HttpClient.Client.WriteFlash | beken378/app/http/utils_httpc.c:427-457 | the new flash and address are those of the block-write function on the old ones |
| HttpClient.Client.FlashInit | beken378/app/http/utils_httpc.c:460-488 | writing starts at the partition's first cell with nothing staged |
| HttpClient.Client.StageChunk | beken378/app/http/utils_httpc.c:511-524 | one turn of the staging loop: buffer topped up, written out and emptied once full |
| HttpClient.Client.WrToFlash | beken378/app/http/utils_httpc.c:503-526 | the in-place staging loop terminates, keeps less than a block pending and equals the stream function |
| HttpClient.Client.NetTurn | beken378/app/http/utils_net.c:204-247 | one turn of the socket loop: exactly the received prefix leaves the stream and reaches flash, breaks carry their error code |
| HttpClient.Client.TcpRead | beken378/app/http/utils_net.c:179-253 | under every event sequence the bytes taken from the stream are those written, and result, count and remaining events are those of the byte-counting read |
| HttpClient.Client.More | beken378/app/http/utils_httpc.c:811-822 | a header read only moves bytes from the stream into the buffer |
| HttpClient.Client.ReadHeaders | beken378/app/http/utils_httpc.c:801-858 | for every split into reads the result, the header state and the leftover are those of parsing the whole stream; only a network fault can end it otherwise |
| HttpClient.Client.ReceiveBody | beken378/app/http/utils_httpc.c:679-719 | the bytes taken are those written, and the ending is that of the byte-counting loop of HttpSocket, whose exact meaning is proved there |
| HttpClient.Client.BeginBody | beken378/app/http/utils_httpc.c:671-678 | the leftover behind the headers is the first data written |
| HttpClient.Client.EndBody | beken378/app/http/utils_httpc.c:744-752 | the staged rest is written out |
| HttpClient.Client.RetrieveContent | beken378/app/http/utils_httpc.c:651-754 | refused exactly when larger than the partition; otherwise success and more-data say exactly which numbers of bytes arrived, flash is the download of leftover plus received bytes, without its closing write unless successful |
| HttpClient.Client.FetchBody | beken378/app/http/utils_httpc.c:860-866 | success gives the exact condition for the announced body to be in the partition, and that it is whenever the announced length makes sure of it; more-data leaves out the unfinished last block; every outcome stays inside the partition's sectors; the header fields decide exactly which responses are refused as too large or not of this path |
| HttpClient.Client.ParseAndFetch | beken378/app/http/utils_httpc.c:762-866 | the same against the parser of the whole stream, with the outcome that status code and header fields settle |
| HttpClient.Client.ResponseParse | beken378/app/http/utils_httpc.c:762-866 | from raw response to flash: whatever the segmentation, faults and extra bytes, success means the announced body is in the partition (with the exact condition where it or a surplus reaches the end), more-data means it is cut off, and no outcome changes anything outside; a network without faults decides by the body's length alone; for every response as it travels, what is announced is the number in the last Content-Length line |
| HttpClient.FetchedOf | beken378/app/http/utils_httpc.c:427-526 | what success means for flash, from the announced length alone |
| HttpClient.BrokenOffOf | beken378/app/http/utils_httpc.c:681-688 | what more-data means for flash: an if-and-only-if for the announced body, surplus included |
| HttpClient.SafelyOf | beken378/app/http/utils_httpc.c:427-457 | a download, finished or broken off, changes only the partition's sectors |
| HttpClient.AnsweredOf | beken378/app/http/utils_httpc.c:679-719 | a network without faults decides the outcome by the length of the body |
| HttpClient.ResponseOnWire | beken378/app/http/utils_httpc.c:776-858 | status line, header lines and body of a response as it travels are those the parser finds, wherever the first read ends behind the status line |
| HttpClient.UnderstoodOf | beken378/app/http/utils_httpc.c:836-866 | what becomes of a response in terms of its status code, its header lines and its body alone |
| HttpClient.MoreDataWithoutImage | beken378/app/http/utils_httpc.c:681-688 | a complete body with one byte behind it: more-data, and its last 76 bytes are not in flash |
| HttpHeader.CrlfPrefix | beken378/app/http/utils_httpc.c:810 | reading more of the stream neither moves nor hides a line end |
| HttpHeader.CrlfExactly | beken378/app/http/utils_httpc.c:810 | the search finds the first CRLF with no NUL in front of it, and fails if and only if there is none |
| HttpHeader.LineInBuffer | beken378/app/http/utils_httpc.c:828-852 | a line end in the buffer is the one the whole-stream parser uses, with the same handler step |
| HttpHeader.NoLineInBuffer | beken378/app/http/utils_httpc.c:811-826 | a full buffer without line end is a rejected header, an exhausted stream an unfinished one |
| HttpHeader.ParseLine | beken378/app/http/utils_httpc.c:836-857 | a plain line is handled exactly when it fits the 255-byte window, else the response is rejected |
| HttpHeader.ParseWire | beken378/app/http/utils_httpc.c:801-858 | on every well-formed header section the result is the fold of the line handler over the lines and the rest is the body; one overlong line rejects it |
| HttpHeader.HeaderSays | beken378/app/http/utils_httpc.c:836-852 | a header section of plain lines is accepted if and only if every line fits and is recognised; content length and retrieve length are then both those of the last line that settles them, Content-Length with a number or chunked encoding, the body is chunked if and only if some line says so, and without a settling line the lengths are the initial ones (a Content-Length without a number copies the first to the second) |
| ImageStore.CrcChain | beken378/app/tftp/tftpclient.c:548-554 | the running CRC over parts is the CRC over their concatenation |
| ImageStore.HeadFields | beken378/app/tftp/tftpclient.h:54-63 | each field of the packet header is the word at its offset, and the last packet is told by its bytes |
| ImageStore.HeaderLayout | beken378/app/tftp/tftpclient.c:558-564 | the image header, field by field, in terms of the bytes of the last packet |
| ImageStore.RunBooks | beken378/app/tftp/tftpclient.c:478-581 | over every sequence of calls the address and CRC are those of the bytes accepted since the last block 0 |
| ImageStore.CommitExactly | beken378/app/tftp/tftpclient.c:548-577 | over every run a call writes the status 1 header if and only if it is accepted, last in sequence by its header bytes, and the CRC of all bytes accepted since block 0 minus the final four equals them; the header is made, word by word, of the packet's header words, its last four bytes, 1 and 0, and goes to the address the packet names |
| ImageStore.PrepareExactly | beken378/app/tftp/tftpclient.c:510-516 | exactly when the erase in front of a block changes the device, and when its cells |
| ImageStore.RefusedCallExactly | beken378/app/tftp/tftpclient.c:510-523 | over every run, a call outside the window leaves flash alone if and only if its address is off a sector boundary or off the device; otherwise the sector is blank afterwards |
| ImageStore.RefusedPacketErasesSectorZero | beken378/app/tftp/tftpclient.c:510-523 | a first packet of zeros is refused and sector 0 is erased |
| ImageStore.BodyRun | beken378/app/tftp/tftpclient.c:478-581 | after each full packet of a package flash holds the payloads so far and the CRC covers the packets so far |
| ImageStore.HeaderApart | beken378/app/tftp/tftpclient.c:565-567 | writing the image header leaves an image in other sectors intact |
| ImageStore.PackageStored | beken378/app/tftp/tftpclient.c:478-581 | for every well-formed package, in terms of its bytes: every payload is in flash at its place; if the CRC matches the 32-byte image header is, its words taken from the last packet's offsets 20, 0, 8, 16, 12 and end, then 1 and 0; no other sector has changed |
| ImageStore.Sink.constructor | beken378/app/tftp/tftpclient.c:43-46 | initial address and CRC |
| ImageStore.Sink.Put | beken378/app/tftp/tftpclient.c:478-581 | flash, address and CRC after the in-place code are those of the packet function |
| Tftp.ForeignPortIgnored | beken378/app/tftp/tftpclient.c:183-187 | once the server port is latched, a datagram from another port is not answered and changes exactly the reply address |
| Tftp.FirstBlockTwice | beken378/app/tftp/tftpclient.c:274-310 | a client that waits for block 1 passes over any other block, and takes it when it comes again |
| Tftp.LateOptionsStoreTwice | beken378/app/tftp/tftpclient.c:211-310 | an OACK during the data phase makes the last block be stored a second time |
| Tftp.Downloader.constructor | beken378/app/tftp/tftpclient.c:350-386 | the state TftpStart leaves, value by value |
| TftpSafety.SendsTruth | beken378/app/tftp/tftpclient.c:79-154 | over every run, what would be sent is the request while nothing is stored, or the acknowledgement of the last block stored |
| Tftp.Downloader.TftpHandler | beken378/app/tftp/tftpclient.c:174-329 | state and reply are those of the handler function, including the out-of-order first block and the repeated block |
| Tftp.Downloader.TftpTimeout | beken378/app/tftp/tftpclient.c:331-348 | state and reply are those of the timeout function, whose effect over every run is `TftpSafety.TimerExactly` |
| TftpSafety.ClientStep | beken378/app/tftp/tftpclient.c:237-321 | any datagram the channel can hold is answered by storing the next block, repeating the last acknowledgement or latching options |
| TftpSafety.ServerStep | beken378/app/tftp/tftpclient.c:298-310 | the server advances only on a true acknowledgement of the block in flight, block numbers wrapped or not |
| TftpSafety.StepKeepsInv | beken378/app/tftp/tftpclient.c:174-348 | every step of client, server, timer and channels keeps both ends within one block and both channels in order |
| TftpSafety.RunKeepsInv | beken378/app/tftp/tftpclient.c:174-348 | the invariant holds in every reachable state |
| TftpSafety.DownloadSafety | beken378/app/tftp/tftpclient.c:237-321 | over every run, for files of any length: stored blocks are a gap-free, repeat-free prefix of the file, no acknowledgement runs ahead, and the client ends exactly at the final short block |
| TftpSafety.TimerExactly | beken378/app/tftp/tftpclient.c:331-348 | over every run, in terms of its history: each of the first ten timeouts of an unfinished client whose last datagram did not come from a stranger sends exactly one datagram, the request until the server has been heard and then the acknowledgement of the last block stored; no other timeout sends anything, and nothing else changes |
| TftpSafety.AnswerExactly | beken378/app/tftp/tftpclient.c:211-321 | over every run each datagram of the server that reaches an unfinished client is answered by exactly one acknowledgement, of the last block stored, and exactly the next block of the file is stored |
| TftpSafety.RunRemembers | beken378/app/tftp/tftpclient.c:331-348 | timeouts, reply address and mode are functions of the history |
| TftpSafety.NumberingExact | beken378/app/tftp/tftpclient.c:304 | the block argument of store_block counts blocks correctly if and only if fewer than 65536 were stored |
| TftpProgress.ServerGoesOn | beken378/app/tftp/tftpclient.c:174-348 | once the server has answered, every reachable state has a run that completes |
| TftpProgress.CompletableExactly | beken378/app/tftp/tftpclient.c:331-348 | a reachable state can still be completed if and only if the server has answered, a request is under way, or fewer than ten timeouts have passed |
| TftpProgress.CanComplete | beken378/app/tftp/tftpclient.c:174-348 | for every file there is a run that completes |
| TftpProgress.UnaidedExactly | beken378/app/tftp/tftpclient.c:331-348 | from every reachable state the client's own retransmissions complete the download, without any repetition by the server, if and only if what is missing can still come: the request; the server's datagram, if it is under way; or the acknowledgement, if it is under way, something makes the client repeat it, or the timer can |
| TftpProgress.LostRequests | beken378/app/tftp/tftpclient.c:331-368 | a run that loses ten requests and is stuck for good |
| TftpProgress.FullLastPacketHandsOverNothing | beken378/app/tftp/tftpclient.c:304-320 | a file that ends in an empty block has a finished run that hands store_block nothing |
| TftpSafety.DownloadedPackage | beken378/app/tftp/tftpclient.c:303-320 | over every run, finished or not: once the packets of a package are stored its payloads are in flash, its header is committed, word by word from the last packet, if the CRC agrees, and no other sector has changed, also when the file goes on behind the package |
| TftpSafety.HandedPackage | beken378/app/tftp/tftpclient.c:303-304 | the first calls of store_block are exactly the calls for the package, numbered from 0 |
| TftpSafety.TakableExactly | beken378/app/tftp/tftpclient.c:304 | in terms of the file alone, exactly when a finished download hands store_block a block below 24 bytes, and exactly when all blocks are of a length it can take |
| Ring.PasteAppends | beken378/common/fifo.h:123-130 | the two-segment copy behind the contents appends to the queue |
| Ring.TwoSegments | beken378/common/fifo.h:157-162 | the two segments read are the oldest bytes in order |
| Ring.Drop | beken378/common/fifo.h:164 | moving the read position drops exactly the oldest bytes |
| Ring.Window | beken378/common/fifo.h:180-196 | a read that starts inside the queue and stays inside it returns queued bytes |
| Ring.CopyIn | beken378/common/fifo.h:123-128 | the buffer after both copies of a split write |
| Ring.CopyOut | beken378/common/fifo.h:180-196 | a split read returns the first bytes of the queue |
| Kfifo.Positions | beken378/common/fifo.h:121-130 | masked counters are ring positions and differ by the fill level, across 32-bit wraps of either counter |
| Kfifo.Moved | beken378/common/fifo.h:164 | advancing a counter advances its ring position, wrap included |
| Kfifo.PowerTest | beken378/common/fifo.h:49 | the test of kfifo_init passes exactly the powers of two among the nonzero sizes |
| Kfifo.Fifo.constructor | beken378/common/fifo.h:44-62 | an empty queue for every size the test lets through, 0 included |
| Kfifo.Fifo.DataSize | beken378/common/fifo.h:170-173 | the fill level, never above the size |
| Kfifo.Fifo.Unused | beken378/common/fifo.h:175-178 | size minus fill level |
| Kfifo.Fifo.Put | beken378/common/fifo.h:114-134 | appends exactly the first min(len, free) bytes and says how many |
| Kfifo.Fifo.Get | beken378/common/fifo.h:148-168 | removes and returns exactly the oldest min(len, used) bytes |
| Kfifo.Fifo.CopyOut | beken378/common/fifo.h:180-196 | from any offset: the bytes around the ring from its position on, which are the queued bytes wherever the offset lies between the counters |
| Kfifo.Fifo.Peek | beken378/common/fifo.h:198-210 | what a get would return, queue unchanged |
| Sfifo.MaskedDifference | beken378/app/ftp/ftpd.c:254-257 | the masked position difference is the content length for all positions 0..size, resting ones included |
| Sfifo.TurnsAre | beken378/app/ftp/ftpd.c:281-283 | the sizes the loop runs through on a 32-bit int: powers of two to 2^30, the sign bit, then 0 |
| Sfifo.InitEndsExactly | beken378/app/ftp/ftpd.c:264-284 | for every int request the loop ends if and only if it is below 2^30 |
| Sfifo.Fifo.constructor | beken378/app/ftp/ftpd.c:264-290 | the least power of two above the request, empty |
| Sfifo.Fifo.Used | beken378/app/ftp/ftpd.c:256 | the content length |
| Sfifo.Fifo.Space | beken378/app/ftp/ftpd.c:257 | capacity size - 1 minus content length |
| Sfifo.Fifo.Write | beken378/app/ftp/ftpd.c:305-334 | appends exactly min(len, space) bytes |
| Sfifo.Fifo.Offer | beken378/app/ftp/ftpd.c:420-426 | one accepted write removes exactly its bytes, a failed one nothing |
| Sfifo.Fifo.OfferToEnd | beken378/app/ftp/ftpd.c:407-418 | the first of two writes removes the bytes up to the buffer's end and wraps the read position |
| Sfifo.Fifo.Drain | beken378/app/ftp/ftpd.c:386-428 | bytes accepted followed by the queue are the old queue for every window and failure pattern, and exactly how many were accepted |
| Ftpd.Channel.constructor | beken378/app/ftp/ftpd.c:696-713 | an empty 2048-byte queue with nothing on the wire |
| Ftpd.Channel.Write | beken378/app/ftp/ftpd.c:457 | the bytes join the end of all that was ever queued |
| Ftpd.Channel.Send | beken378/app/ftp/ftpd.c:386-428 | the wire grows towards what was queued and never past it, by exactly what TCP accepts |
| Ftpd.Session.constructor | beken378/app/ftp/ftpd.c:808-881 | a transfer starts attached, unconnected, with nothing sent, on a control connection that has carried any replies before |
| Ftpd.Session.SendMsg | beken378/app/ftp/ftpd.c:1244-1260 | a reply is queued whole if it fits and dropped whole otherwise; if it fits, TCP is offered the queue at once, and a connection that takes everything has the reply on the wire |
| Ftpd.Session.Noops | beken378/app/ftp/ftpd.c:906-909 | replies pile up in order while the control connection takes nothing |
| Ftpd.Session.FeedFile | beken378/app/ftp/ftpd.c:435-459 | how much is read, when the end of file is noticed and by how much the wire grows; wire plus queue stay equal to the file prefix read |
| Ftpd.Session.ReadChunk | beken378/app/ftp/ftpd.c:449-457 | bytes read join the queue and keep the conservation |
| Ftpd.Session.SendFile | beken378/app/ftp/ftpd.c:430-482 | conservation is kept, and the transfer ends only when TCP has accepted the whole file |
| Ftpd.Session.WriteLine | beken378/app/ftp/ftpd.c:498-505 | one listing line joins the queue |
| Ftpd.Session.FillListing | beken378/app/ftp/ftpd.c:489-534 | lines are queued in order until one does not fit or none is left, and exactly then it stops |
| Ftpd.Session.SendNextDirectory | beken378/app/ftp/ftpd.c:484-558 | the same conservation for listings, with what stays behind and by how much the wire grows |
| Ftpd.Session.Finish | beken378/app/ftp/ftpd.c:470-480 | the session returns to idle and reply 226 is queued if there is room for it, and on the wire if the control connection takes everything |
| Ftpd.Session.Dispatch | beken378/app/ftp/ftpd.c:560-580 | each callback keeps conservation, queues 226 only when it ends the transfer, leaves the control connection to its own callback, which offers it what is queued, and makes progress in a favourable environment, by exactly one unit of work for a file |
| Ftpd.Session.Serve | beken378/app/ftp/ftpd.c:1377-1406 | over every callback sequence and every earlier control traffic: wire plus queue is what was read; 226 follows the earlier replies at most once, only when TCP has accepted everything, and is dropped exactly for want of room; a last callback of a control connection that takes everything has it on the wire; on a connection without faults a file of n bytes ends exactly with callback ceil(n / 2047) + 2 and a listing of n bytes by callback ceil(n / 1024) + 1 |
| Ftpd.FullQueueDropsReply | beken378/app/ftp/ftpd.c:1255-1256 | a complete transfer whose reply 226 is dropped behind 107 unread replies |
| VideoBuffer.NextSane | beken378/app/video_work/video_buffer.c:88-196 | once a read has started on a frame, frame_len never exceeds buf_len |
| VideoBuffer.TakeStep | beken378/app/video_work/video_buffer.c:121-187 | a wanted packet extends the frame by exactly its payload |
| VideoBuffer.FrameOfRun | beken378/app/video_work/video_buffer.c:88-196 | over every interleaving the buffer prefix is the in-order concatenation of packets 1..n of one id that arrived during the read |
| VideoBuffer.GoodRead | beken378/app/video_work/video_buffer.c:304-371 | a read with error 0 returns such a frame ending in an eof packet, from seven bytes on with FF D8 at its start, FF D9 seven bytes before its end and its length less five in the last four bytes |
| VideoBuffer.MarkedExactly | beken378/app/video_work/video_buffer.c:145-160 | the marker test, written out on the frame's bytes |
| VideoBuffer.ProducedAt | beken378/app/video_work/video_buffer.c:69-86 | stamped packets carry the id, the running number modulo 256, the given length byte and eof on the last only |
| VideoBuffer.WantedExactly | beken378/app/video_work/video_buffer.c:121-123 | the 8-bit packet number matches the 32-bit count exactly for the packets that continue the frame, up to number 255 |
| VideoBuffer.TakenUp | beken378/app/video_work/video_buffer.c:121-187 | a continuing packet is appended if it fits and judged if it is the last |
| VideoBuffer.FrameAlong | beken378/app/video_work/video_buffer.c:88-196 | after every prefix of a frame's packets, what a reader that holds packets of that id has gained |
| VideoBuffer.ResumedFrame | beken378/app/video_work/video_buffer.c:88-196 | a reader that already holds packets of the id succeeds if and only if it lacks some, there are at most 255, and what it held followed by what it lacked fits and is marked; then it gets exactly that; and the code of every other read |
| VideoBuffer.Resync | beken378/app/video_work/video_buffer.c:105-116 | a frame with a new id is received as by a fresh reader, whatever an abandoned frame has left |
| VideoBuffer.StaleFrame | beken378/app/video_work/video_buffer.c:105-116 | a frame with the last id seen leaves a reader that holds nothing of it unchanged |
| VideoBuffer.RoundTrip | beken378/app/video_work/video_buffer.c:69-196 | for every frame and every waiting reader, in the middle of a frame or not: exactly when the read succeeds, what it returns, and with which code it ends otherwise |
| VideoBuffer.FrameDelivered | beken378/app/video_work/video_buffer.c:69-196 | a frame with the markers and the length in their places that fits is delivered byte for byte if and only if it has at most 255 packets and a new id, or continues the packets held of the same frame |
| VideoBuffer.FirstFrame | beken378/app/video_work/video_buffer.c:221-231 | after opening every id is new: the first frame is delivered if and only if it has at most 255 packets |
| VideoBuffer.NotTwice | beken378/app/video_work/video_buffer.c:357-361 | whatever has happened, a new read is not served by packets of the id seen last |
| VideoBuffer.NoisePasses | beken378/app/video_work/video_buffer.c:96-123 | packets too short for a header, or of another id and not number 1, leave no trace on a reader that has started on a frame |
| VideoBuffer.NoisyFrame | beken378/app/video_work/video_buffer.c:88-196 | a frame reaches a waiting reader through any such packets between its own as it would without |
| VideoBuffer.MixedFrame | beken378/app/video_work/video_buffer.c:105-123 | a reachable read that succeeds with a mixture of two frames of one id |
| VideoBuffer.Receiver.constructor | beken378/app/video_work/video_buffer.c:221-231 | the state after opening |
| VideoBuffer.Receiver.AddPktHeader | beken378/app/video_work/video_buffer.c:69-86 | header bytes and the sequence counter, reset at eof |
| VideoBuffer.Receiver.CopyPacket | beken378/app/video_work/video_buffer.c:125-186 | in-place copy, counters and verdict equal the packet function |
| VideoBuffer.Receiver.RecvVideoData | beken378/app/video_work/video_buffer.c:88-196 | the new state is that of the packet step |
| VideoBuffer.Receiver.BeginRead | beken378/app/video_work/video_buffer.c:309-325 | a read takes the buffer only if none is in progress; otherwise, or without a buffer, it is turned away with its code |
| VideoBuffer.Receiver.EndRead | beken378/app/video_work/video_buffer.c:327-370 | result codes by status, value by value, and the reset of the state |
| CoreBus.RxAccounts | beken378/app/app.c:432-461 | how each step moves the queued, admitted and failed notifications |
| CoreBus.TxAccounts | beken378/app/app.c:150-177 | how each step moves the references the bus answers for |
| CoreBus.RunInv | beken378/app/app.c:635-711 | both balances hold after every interleaving |
| CoreBus.RxCounterExact | beken378/app/app.c:131-143 | bmsg_rx_count is queued plus admitted plus failed plus popped messages, stays in 0..2, and the handler's guard never fails |
| CoreBus.TxReferencesExact | beken378/app/app.c:463-482 | each buffer's count is external references plus what senders, queue and handler hold; buffers in hand are alive and nothing is held back at rest |
| CoreBus.EventsPaid | beken378/app/app.c:432-461 | while no push fails, events made plus events owed never decrease |
| CoreBus.RefusedExactly | beken378/app/app.c:444-448 | a refused sender has events coming exactly unless both tokens belong to failed pushes and the core thread is not about to make one |
| CoreBus.FirstOut | beken378/app/app.c:635-711 | a notification with k messages in front of it is taken up after k + 1 pops, whatever is pushed meanwhile |
| CoreBus.QueueExactly | beken378/app/app.c:635-711 | over every run the queue is what was in it followed by what was pushed, in order, without as many messages from the front as were popped |
| CoreBus.TxFirstOut | beken378/app/app.c:463-482 | a transmission with k messages in front of it is in the handler's hands at pop k + 1 |
| CoreBus.RefusedSenderServed | beken378/app/app.c:432-461 | if the senders admitted at the refusal make their pushes without failure and the queue found then is worked off, at least one event is made, however many senders are admitted meanwhile |
| CoreBus.RefusalWithoutEvent | beken378/app/app.c:453-460 | a reachable refusal with no event owed |
| CircularList.Insert | beken378/common/doubly_list.h:55-61 | insertion at any place of a ring keeps next and prev mutually inverse |
| CircularList.Unlink | beken378/common/doubly_list.h:96-100 | removal at any place keeps the rest a ring and writes only the neighbours |
| CircularList.AddHead | beken378/common/doubly_list.h:71-74 | prepends |
| CircularList.AddTail | beken378/common/doubly_list.h:84-87 | appends |
| CircularList.Del | beken378/common/doubly_list.h:108-111 | removes, the entry keeping its stale pointers |
| CircularList.DelInit | beken378/common/doubly_list.h:117-121 | removes, the entry becoming an empty list |
| CircularList.InitHead | beken378/common/doubly_list.h:45-47 | an empty list |
| CircularList.Move | beken378/common/doubly_list.h:128-132 | transfers an entry to the front of a disjoint list |
| CircularList.MoveTail | beken378/common/doubly_list.h:139-144 | transfers an entry to the end of a disjoint list |
| CircularList.MoveWithin | beken378/common/doubly_list.h:128-144 | moving within one list brings the entry to an end |
| CircularList.SpliceRing | beken378/common/doubly_list.h:155-167 | joins two rings in front of the target's entries |
| CircularList.Splice | beken378/common/doubly_list.h:174-178 | concatenation, also for an empty source |
| CircularList.SpliceInit | beken378/common/doubly_list.h:187-194 | concatenation, the source becoming empty |
| CircularList.Empty | beken378/common/doubly_list.h:150-153 | true exactly for no entries |
| CircularList.Size | beken378/common/doubly_list.h:257-265 | the number of entries |
| CircularList.Purge | beken378/common/doubly_list.h:223-225 | safe iteration that deletes what it stands on visits every entry once in order and empties the list |
| Base64.DecodeEncode | beken378/app/http/utils_httpc.c:58-77 | a decoder written from the RFC inverts the encoding of every string |
| Base64.EncodeLength | beken378/app/http/utils_httpc.c:58-77 | four digits per begun group of three |
| Base64.Alphabet | beken378/app/http/utils_httpc.c:60 | the digits are those of table 1 of RFC 4648 |
| Base64.TestVectors | beken378/app/http/utils_httpc.c:58-77 | three test vectors of section 10 of RFC 4648 |
| Base64.LowBits | beken378/app/http/utils_httpc.c:64-67 | the digits taken from the wrapping accumulator are those of the octets |
| Base64.PendingStep | beken378/app/http/utils_httpc.c:63-68 | one octet through the loop keeps output plus pending bits equal to the encoding |
| Base64.PendingEnd | beken378/app/http/utils_httpc.c:69-75 | last digit and padding complete the encoding |
| Base64.EmitDigits | beken378/app/http/utils_httpc.c:65-67 | the inner loop writes exactly the complete digits |
| Base64.EncodeBits | beken378/app/http/utils_httpc.c:63-68 | the outer loop leaves output plus pending bits equal to the encoding |
| Base64.Finish | beken378/app/http/utils_httpc.c:69-76 | last digit, padding and terminator |
| Base64.Base64Enc | beken378/app/http/utils_httpc.c:58-77 | the buffer holds exactly the RFC encoding of the whole text and a terminator, inside its bounds |
| Base64.SendAuth | beken378/app/http/utils_httpc.c:226-250 | accepted exactly below 128 characters, and then both stack buffers suffice and the header is the encoding and a newline |
| Tlv.First | beken378/app/net_work/video_demo_softap.c:695-707 | the first position of a type, all earlier ones of other types |
| Tlv.MarkIs | beken378/app/net_work/video_demo_softap.c:667-671 | the table mark is the bytes "TLV" and a zero |
| Tlv.EntryAt | beken378/app/net_work/video_demo_softap.c:695-707 | walking by head and length meets every entry of an encoded table |
| Tlv.EntryInMemory | beken378/app/net_work/video_demo_softap.c:752-753 | head and value of each entry as read from flash |
| Tlv.SearchByType | beken378/app/net_work/video_demo_softap.c:685-716 | terminates with the address of the first entry of the type, 0 exactly when there is none |
| Tlv.ReadField | beken378/app/net_work/video_demo_softap.c:746-753 | the value of the first entry of the type |
| Tlv.TableIsConfigured | beken378/app/net_work/video_demo_softap.c:662-683 | whatever a configuration tool encodes, anywhere in flash, is a marked table the readers accept |
| Tlv.GetGeneral | beken378/app/net_work/video_demo_softap.c:718-793 | returns the encoded general parameters, or fails exactly when the table mark or one of them is missing |
| Tlv.GetAp | beken378/app/net_work/video_demo_softap.c:795-871 | returns the encoded access point parameters, password optional, or fails exactly when the table mark or another one is missing |
| Clock.TicksAre | beken378/rttos/os_clock.c:48-67 | n single ticks in closed form, from every running state |
| Clock.SystemTicks.Handle | beken378/rttos/os_clock.c:48-67 | one tick |
| Clock.SystemTicks.CarrySeconds | beken378/rttos/os_clock.c:73-77 | the loop terminates, carries whole seconds over and leaves the remainder |
| Clock.SystemTicks.UpdateTick | beken378/rttos/os_clock.c:69-90 | one call for n ticks leaves the state of n single ticks |
| Clock.SystemTicks.Reset | beken378/rttos/os_clock.c:137-141 | clears clock and seconds, keeps the running second |
| Clock.InStep | beken378/rttos/os_clock.c:48-67 | clock minus seconds and countdown is constant modulo 2^32 |
| Clock.ExpiryExact | beken378/app/http/utils_timer.c:51-70 | for all start, countdown and elapsed times, exactly when the expiry test is right across the roll-over |
| Clock.TimeLeftExact | beken378/app/http/utils_timer.c:34-49 | below 2^31 - 1 ms both remaining-time functions are the plain difference |

## Left out

- Chunked transfer and responses without Content-Length: the parser's result is `Unmodelled` there.
- HTTP downloads in the configuration that routes blocks through `store_block` (1048-byte blocks).
- `httpclient_common`, request building, DNS and TLS: plumbing around the modelled calls.
- The byte layout of TFTP datagrams and the option scan of the OACK: packets are decoded values.
- TFTP transfers in which a foreign host answers before the server does: the code latches the first port that answers.
- Channels that reorder: duplicate detection compares with the last block only.
- `TftpBlockWrap` and `TftpBlockWrapOffset`: they only feed progress output.
- ImageStore.Sink.Put: packets shorter than 24 or longer than 1048 bytes are excluded, because the code's lengths wrap or its read-back buffer overflows there.
- Sfifo.Fifo.constructor: requests from 2^30 on are excluded, because there is no new state for them: by `Sfifo.InitEndsExactly` the loop does not end.
- Flash writes that run past the end of the device, and line-mode or write-protection switching.
- Failed allocations, logging, read-back comparison (it only prints) and interrupt masking beyond atomicity.
- FTP: PASV, ABOR, STOR, QUIT, commands that reply during a transfer, overlapping transfers, renaming and directory commands, connection errors.
- Ftpd.Session.SendNextDirectory: the text of a listing line is a parameter, lines must fit the 1024-byte format buffer.
- Preemption inside the video packet handler: each packet is one atomic step; the bytes a frame below seven bytes reads in front of the buffer are an arbitrary verdict.
- Message types other than RX and TX on the core queue, power-save handling and the kernel event scheduler.
- Base64: `char` is unsigned and the accumulator is its 32-bit pattern; the bits read are unaffected by the sign.
- Tlv.SearchByType: malformed tables, where a length can wrap the address and the search need not end.
- Tlv.ReadField: the same tables.
- Tlv.GetGeneral: the same tables, behind a table mark.
- Tlv.GetAp: the same tables, behind a table mark.
- Tick calibration, hardware timers and alarm callbacks.
