# Network programs: a verified model

This project models three networking programs and proves what they promise:

- the UDP file transfer of `Program_3`: a sliding-window sender (`udpClient.c`), a selective-reject
  receiver (`udpServer.c`), the ring buffer they share (`windowing.c`) and the packet codec
  (`sendrecvpdu.c`);
- the Internet checksum and the tracer's checksum verdicts of `Program_1` (RFC 1071);
- the multicast packet and the handle table of the chat programs of `Program_2`.

Each object the C code updates is a class (`CircularQWindow`, `Client`, `Server`, `HandleTable`) or a
method over arrays. Its methods are proved to compute a function on values, and the theorems are about
those functions. `Transfer.dfy` puts the sender and the receiver together with a network that keeps every
packet ever sent in each direction: a turn that polls may get any of them, or nothing, or a damaged
copy of one, so loss, delay, duplication, corruption and reordering are all runs of the system.

## Main results

- **Safety.** In every reachable state the receiver's file is the input chunks below its window edge, in
  order, each once; when either side declares the transfer over, the file is the whole input
  (`Runs.FileIsPrefix`, `Runs.DoneMeansWholeFile`, from the invariant kept by `Transfer.StepKeepsInv`).
- **Where safety fails, and exactly when.** A corrupt acknowledgement that reaches the client while nothing
  is unacknowledged sends it to ACK, where a silent second makes it repeat an old slot under a number it
  has not used yet. `Faults.CorruptAckDuplicatesChunk` is a run that turns "ab" into "aa".
  `Faults.GuardIsExact` shows that the repetition is right for every file the client could be reading if
  and only if `lower < current`, and `Runs.OnlyCorruptionUnguards` that this corruption is the only way
  to an unguarded repetition. The safety theorems assume only that guard (or, in `Runs.CleanRunsAreSafe`,
  that the corruption does not happen).
- **Uncleared memory, and exactly which.** `windowreset` does not clear the receiver's `occupied` block. For
  every window size and every content of that block, all guarded runs keep the file a prefix of the input if
  and only if the window has one slot, or has two with that of number 2 free, or no slot is marked
  (`StaleMarks.OccupiedIsExact`). The safety theorems start from any such block.
- **Recovery.** After any guarded run, if every packet in flight is lost for good, a guarded run that
  completes exists exactly when the transfer is already complete, or something is unacknowledged or unread,
  the client has used at most nine retries, the server is listening, and the client is not waiting in ACK
  with nothing to repeat (`Completion.TotalLossIsSurvivable`). Where the client saw no corrupt packet on an
  empty window the last condition holds by itself, and in the remaining cases no run at all completes,
  guarded or not (`Completion.CleanRunsRecover`). Hence a transfer of an empty file can never succeed
  (`Completion.CompletesIffNonEmpty`).
- **The last acknowledgement.** A client that has read the whole file and takes the acknowledgement of all of
  it needs that acknowledgement once more, in every run to success, if and only if it has not yet found the
  end of the file: the last read was full and the read of nothing has not happened
  (`Completion.SecondAckNeeded`).
- **Every turn.** For every state and poll: which state each handler leads to and exactly when, what it sends
  and exactly when, and what it leaves alone (`Turns`). In every reachable state a live reject is answered with
  exactly the rejected chunk (`Turns.RejectIsAnswered`).
- **Halting.** In silence each program stops after an exactly computed number of turns, except a server in
  its termination state, which never stops (`Silence`).
- **Checksum.** `in_cksum` never overflows up to 65536 bytes, equals the complement of the one's complement
  sum of all words with an odd byte padded by zero, and does not depend on the byte order of the host; the
  compare-after-zeroing check differs from the check of RFC 1071 on exactly one kind of input. The tracer's
  verdicts are stated by the sums of RFC 1071 and RFC 9293 (`Trace.IpVerdict`, `Trace.TcpVerdict`).
- **Codec.** Receiving undoes sending for every 32-bit number, flag and payload across hosts of either byte
  order; any change of one byte is detected, and a change of one 16-bit word is missed exactly when it swaps
  0x0000 and 0xFFFF outside the checksum field while some other word of the packet is not zero.
- **Chat.** The server parses every well-formed multicast packet back to sender, handles and message. Over every
  run of registrations and disconnects the handle table is a directory of up to 100 different handles.

## Assumptions

- Both windows have the same size, at least 1; sequence numbers stay below 2^31, so the mixed signed and
  unsigned comparisons mean what they say.
- `read` is short only at the end of the file, and `write` is complete.
- The receiver's `occupied` block is one of those that `StaleMarks.OccupiedIsExact` shows to be harmless; a
  zeroed block is one.
- A corrupt packet is a damaged copy of one that was sent, and is reported as corrupt. `SendRecv.OneWordCorruption` says which changes of one word are not.
- Packets fit the C buffers: payloads of at most 1400 bytes, handles of at most 99 bytes, segments of at
  most 65535 bytes with their pseudo-header.

`Program_3/README` says the server gives up after waiting ten times. The code counts eleven silent seconds and
stops on the next turn; the model follows the code (`Silence.SilentServerStops`).

## Model

| member | source | states |
|---|---|---|
| Windowing.ModInjective | Program_3/windowing.c:17-18 | slot = seq % win_sz never confuses two numbers less than one window apart, for every window size |
| Windowing.InsertIsUpdate | Program_3/windowing.c:15-23 | inserting is an update of the finite map of buffered numbers, at the live number sharing the slot |
| Windowing.UpperAliasesLower | Program_3/udpServer.c:232-238 | a packet numbered `upper` would land in the slot of `lower` |
| Windowing.RemoveIsDelete | Program_3/windowing.c:32-35 | removing deletes exactly that number from the map |
| Windowing.MoveIsRestriction | Program_3/windowing.c:37-50 | moving forward, even past upper, keeps exactly the buffered numbers from the new edge on, and upper = lower + win_sz |
| Windowing.LabelsStayRight | Program_3/windowing.c:15-23 | every buffered number stays the one recorded in its slot |
| Windowing.RunEnd | Program_3/udpServer.c:219-222 | the drain loop stops at the first free slot or at upper, every slot before being occupied |
| Windowing.CircularQWindow.constructor | Program_3/windowing.c:57-65 | the reset window over whatever memory was allocated |
| Windowing.CircularQWindow.InsertIntoWindow | Program_3/windowing.c:15-23 | in place, the whole new window |
| Windowing.CircularQWindow.LoadFromWindow | Program_3/windowing.c:25-30 | the bytes stored in the slot of the number |
| Windowing.CircularQWindow.RemoveFromWindow | Program_3/windowing.c:32-35 | in place, the whole new window |
| Windowing.CircularQWindow.MoveWindow | Program_3/windowing.c:37-50 | in place with the clearing loop, the whole new window |
| Chunks.ReadUpToClosedForm | Program_3/udpClient.c:190 | after k reads the file position is min(k * size, length) |
| Chunks.JoinedIsPrefix | Program_3/udpClient.c:190-202 | the first k chunks together are that prefix of the file |
| UdpClient.BufferSize | Program_3/udpClient.c:168-172 | a buffer size outside 1..1400 becomes 1400 |
| UdpClient.Client.constructor | Program_3/udpClient.c:64-77 | the client's initial state |
| UdpClient.Client.SendFileBuffer | Program_3/udpClient.c:179-210 | the FILE state in place: new state, next state and packets sent |
| UdpClient.Client.ExitClient | Program_3/udpClient.c:212-219 | a successful exit sends EOF and then END |
| UdpClient.Client.HandleServerResponse | Program_3/udpClient.c:221-263 | the SERVER state in place |
| UdpClient.Client.GetDataAcknowledgement | Program_3/udpClient.c:265-291 | the ACK state in place |
| UdpClient.Client.Turn | Program_3/udpClient.c:143-153 | one turn of the main loop |
| UdpServer.ScanFindsRunEnd | Program_3/udpServer.c:268-274 | the RECOVER scan, which runs past the ring to upper + 1, finds the first gap and never an index at or above upper |
| UdpServer.DrainDeliversRun | Program_3/udpServer.c:217-228 | the in-order packet delivers exactly the maximal run of buffered chunks and keeps every later one |
| UdpServer.FillDeliversRun | Program_3/udpServer.c:266-285 | RECOVER delivers exactly the chunks before the first gap, or with a full ring changes neither file nor bounds |
| UdpServer.EarlyDataIsBuffered | Program_3/udpServer.c:236-242 | data ahead of the edge is buffered, nothing is written, the packet at the edge is rejected |
| UdpServer.Server.constructor | Program_3/udpServer.c:159-161 | the server's initial state |
| UdpServer.Server.RecvFileData | Program_3/udpServer.c:186-246 | the RECVFILE state in place: new state, next state and packets sent |
| UdpServer.Server.DrainRun | Program_3/udpServer.c:218-227 | the drain loop and the move, in place |
| UdpServer.Server.ScanForGap | Program_3/udpServer.c:268-274 | the scan loop, in place |
| UdpServer.Server.WriteRun | Program_3/udpServer.c:276-279 | the write loop of RECOVER, in place |
| UdpServer.Server.FillGap | Program_3/udpServer.c:267-281 | insert, scan, write loop and move, in place |
| UdpServer.Server.WaitClientPackets | Program_3/udpServer.c:248-290 | the RECOVER state in place |
| UdpServer.Server.ClientTerminationWait | Program_3/udpServer.c:292-318 | the TERMINATION state in place |
| UdpServer.Server.Turn | Program_3/udpServer.c:119-132 | one turn of the server's loop |
| Turns.FileTurn | Program_3/udpClient.c:179-210 | FILE sends exactly the next chunk of the file unless the window is full or the file has ended; a short chunk or the end fixes previous_sn |
| Turns.ResponseTurn | Program_3/udpClient.c:221-263 | when SERVER leads to FILE, ACK or the exit, when it sends and when it moves the window, each in both directions, and that nothing else changes |
| Turns.RejectIsAnswered | Program_3/udpClient.c:245-252 | in every reachable state a live reject puts exactly the rejected chunk on its way and changes nothing else; an old one a packet the receiver is past |
| Turns.AckTurn | Program_3/udpClient.c:265-291 | when ACK gives up, counts, repeats or goes to SERVER, each in both directions; a damaged packet counts as any other |
| Turns.RepetitionIsRight | Program_3/udpClient.c:281-286 | with something unacknowledged, the repetition is the chunk at the lower edge |
| Turns.RecvFileTurn | Program_3/udpServer.c:186-246 | RECVFILE stops exactly on exhausted retries or data beyond the window; a damaged packet only clears the count; which polls are answered and how |
| Turns.RecoverTurn | Program_3/udpServer.c:248-290 | RECOVER stops exactly on silence, ignores a damaged packet, ends exactly on a number from lower to upper, and answers every packet |
| Turns.TerminationTurn | Program_3/udpServer.c:292-318 | END is sent every time, the server stops exactly on a received END, window and file stay |
| Turns.PacketsAre | Program_3/udpServer.c:47-55 | the flag octets, and that requests and rejects carry their number in network order |
| Transfer.InitialInv | Program_3/udpClient.c:64-77 | the invariant holds before the first turn, over every harmless block |
| Transfer.ClientFileKeepsInv | Program_3/udpClient.c:179-210 | reading and sending a chunk keeps the invariant over windows, slots, channels and file |
| Transfer.ClientResponseKeepsInv | Program_3/udpClient.c:221-263 | so does handling any reject (however old), any acknowledgement (however late), a timeout or a corrupt packet |
| Transfer.ClientAckKeepsInv | Program_3/udpClient.c:265-291 | so does waiting in ACK, when a repetition has something unacknowledged to repeat |
| Transfer.DataStaysBelowUpper | Program_3/udpServer.c:232-238 | nothing at or above upper is ever sent, and EOF and END (number 0) never fit the window |
| Transfer.ServerRecvFileKeepsInv | Program_3/udpServer.c:186-246 | every turn of RECVFILE keeps the invariant |
| Transfer.ServerRecoverKeepsInv | Program_3/udpServer.c:248-290 | every turn of RECOVER keeps the invariant |
| Transfer.ServerTerminationKeepsInv | Program_3/udpServer.c:292-318 | every turn of TERMINATION keeps the invariant |
| Transfer.StepKeepsInv | Program_3/udpClient.c:143-153 | every turn of either program keeps the invariant under the repetition guard |
| Runs.FileIsPrefix | Program_3/udpServer.c:186-290 | in every reachable state the file is chunks 1..lower-1 and a prefix of the input |
| Runs.DoneMeansWholeFile | Program_3/udpClient.c:254-256 | success of the client, or TERMINATION of the server, means the file equals the input |
| Runs.WindowSandwich | Program_3/udpServer.c:229-238 | client.lower <= server.lower <= current == new_sn <= client.lower + win_sz, and the abort beyond the window is never taken |
| Runs.FreshDataIsRight | Program_3/udpClient.c:245-252 | every data packet in flight at or above the receiver's edge carries its own chunk |
| Runs.RejectsAreServed | Program_3/udpClient.c:245-252 | a reject in flight names a sent packet, and its slot holds that chunk unless the receiver is already past it |
| Runs.StepKeepsAckJustified | Program_3/udpClient.c:186-198 | the full-window and end-of-file routes into ACK justify a repetition; exactly a corrupt packet on an empty window does not |
| Runs.OnlyCorruptionUnguards | Program_3/udpClient.c:241-243 | without that corruption every repetition in every run is guarded |
| Runs.CleanRunsAreSafe | Program_3/udpClient.c:241-286 | so in those runs the file is always a prefix and complete when declared so |
| Faults.GuardIsExact | Program_3/udpClient.c:281-286 | the repetition is right for every file agreeing with what was read if and only if lower < current |
| Faults.StaleRepeatReachesFile | Program_3/udpClient.c:281-286 | an unguarded repetition puts its stale bytes in the file, which stays a prefix only if they are the next bytes |
| Faults.CorruptAckDuplicatesChunk | Program_3/udpClient.c:241-286 | a six-turn run that delivers "aa" for "ab" |
| StaleMarks.OccupiedIsExact | Program_3/windowing.c:57-65 | for every block that malloc can return as `occupied`: every guarded run keeps the file a prefix if and only if the block is harmless |
| StaleMarks.StaleMarkReachesFile | Program_3/udpServer.c:218-227 | with a stale mark behind the edge, the packet at the edge takes what that slot holds into the file |
| StaleMarks.SecondCopySkipsFirst | Program_3/udpServer.c:266-279 | with number 1 marked, two copies of packet 2 take the slot of number 1 into the file |
| Silence.SilentTurnCounts | Program_3/udpClient.c:179-291 | each silent turn of the client uses up exactly one of the turns left |
| Silence.SilentClientStops | Program_3/udpClient.c:271-288 | in silence the client stops, unsuccessfully, after exactly the computed number of turns |
| Silence.SilentServerStops | Program_3/udpServer.c:196-206 | in silence the server stops after at most 12 turns of RECVFILE or 1 of RECOVER, and never in TERMINATION |
| Silence.SilentFromTheStart | Program_3/udpServer.c:196-206 | from the start the server stops after 12 silent turns, the client after two turns for each chunk of a window and 13 more |
| Completion.ReachesAck | Program_3/udpClient.c:186-198 | silent turns alone take a client with unfinished work to ACK with something to repeat: the run is returned |
| Completion.ServerAnswers | Program_3/udpServer.c:217-231 | every repeated packet is answered with the receiver's edge, and brings one side forward or ends RECOVER |
| Completion.FinishesFrom | Program_3/udpClient.c:265-291 | from every such state some run ends with both sides done and the file complete |
| Completion.DoomedNeverFinishes | Program_3/udpClient.c:265-291 | no run, guarded or not, completes once a side is gone, the last repetition or the end is lost, or everything is acknowledged and no acknowledgement of it is left |
| Completion.TotalLossIsSurvivable | Program_3/udpClient.c:271-291 | after any guarded run and the loss of everything in flight: exactly when a guarded run completes |
| Completion.CleanRunsRecover | Program_3/udpClient.c:265-291 | after a run without corruption on an empty window, completion is possible exactly when finished or recoverable, for guarded and for all runs |
| Completion.CompletesIffNonEmpty | Program_3/udpClient.c:196-198 | a transfer can complete if and only if the file is not empty, by guarded runs and by any |
| Completion.SecondAckNeeded | Program_3/udpClient.c:254-256 | after taking the acknowledgement of the whole file, every successful run takes it again if and only if previous_sn was still 0 |
| Completion.ExactMultipleFinishes | Program_3/udpClient.c:196-198 | with a second copy of that acknowledgement in flight the transfer can complete |
| Checksum.InCksum | Program_1/checksum.c:46-74 | the loop and two folds compute the RFC 1071 checksum without overflowing a 32-bit int |
| Checksum.WordOrders | Program_1/checksum.c:58-59 | which byte of a word is the high one on a host of either order |
| Checksum.OddByteIsPadded | Program_1/checksum.c:64-67 | an odd last byte is summed as if a zero byte followed |
| Checksum.WordSumIsTotal | Program_1/checksum.c:58-67 | every word of the buffer, the padded last one included, is summed once |
| Checksum.FoldSum | Program_1/checksum.c:69-73 | the two folds and the complement of every non-negative 32-bit sum, in 32-bit arithmetic |
| Checksum.FoldIsUnique | Program_1/checksum.c:69-73 | the folded sum is the unique 16-bit value congruent to the sum mod 65535 that is 0 only for a zero sum |
| Checksum.TwoFoldsSuffice | Program_1/checksum.c:69-71 | two folds are enough for every non-negative 32-bit sum |
| Checksum.WordSumBound | Program_1/checksum.c:54-61 | the accumulator is at most 65535 per word |
| Checksum.OnesSum | Program_1/checksum.c:58-61 | one more word than 32768 can overflow the accumulator |
| Checksum.ByteOrderIndependence | Program_1/checksum.c:58-73 | the checksum of the other byte order is the byte swap, and the stored bytes are the same |
| Checksum.ComparisonAgreesWithRfc | Program_1/trace.c:316-323 | zero-and-compare agrees with "everything sums to 0xFFFF" except for a received 0xFFFF where 0 is computed |
| Checksum.VerdictIgnoresOrder | Program_1/trace.c:174-177 | the verdict is the same on hosts of either byte order |
| Checksum.OneWordChange | Program_3/sendrecvpdu.c:64-76 | exactly which changes of one word pass the check |
| SendRecv.SendBuf | Program_3/sendrecvpdu.c:21-49 | the bytes sent are the framed packet with its checksum stored in native order |
| SendRecv.RecvBuf | Program_3/sendrecvpdu.c:51-89 | what is returned, and both buffers in full: the payload and the seven bytes behind the packet for an accepted one, nothing but the zeroed field for a rejected one |
| SendRecv.ReceiveUndoesSend | Program_3/sendrecvpdu.c:21-89 | every sent packet is accepted and decodes to its flag, payload and number (the same number below 2^31), also across byte orders |
| SendRecv.FrameLayout | Program_3/sendrecvpdu.c:37-46 | number in network order, checksum over the zeroed field, flag and payload, each at its offset |
| SendRecv.FromBe32IsBigEndian | Program_3/sendrecvpdu.c:80 | ntohl reads network order |
| Bytes.Be32IsBigEndian | Program_3/sendrecvpdu.c:37 | htonl writes network order |
| SendRecv.AsIntIsUnique | Program_3/sendrecvpdu.c:79-80 | the number a C int holds is the one congruent to the pattern in its range |
| SendRecv.EncodeInjective | Program_3/sendrecvpdu.c:21-49 | different packets have different encodings |
| SendRecv.OneWordCorruption | Program_3/sendrecvpdu.c:64-76 | a sent packet changed in one word is accepted exactly in the 0x0000/0xFFFF case outside the checksum field, while some other word is not zero |
| SendRecv.OneByteCorruption | Program_3/sendrecvpdu.c:64-76 | any change of one byte, so any flipped bit, is rejected |
| Trace.CheckIpHeader | Program_1/trace.c:278-327 | the verdict of the IP header check, and the packet with its field zeroed |
| Trace.FillScratch | Program_1/trace.c:158-172 | the scratch memory starts with the pseudo-header and then the segment |
| Trace.CheckTcpSegment | Program_1/trace.c:140-184 | the verdict over pseudo-header and segment built in scratch memory |
| Trace.NtohsReadsNetworkOrder | Program_1/trace.c:143 | ntohs gives the number that two bytes in memory stand for, on a host of either order |
| Trace.IpVerdict | Program_1/trace.c:316-323 | for a header of ihl words, on any host and whatever follows it, the verdict of RFC 1071 on exactly those 4 * ihl bytes, but for one kind of input |
| Trace.TcpLengthIs | Program_1/trace.c:152 | the announced total length less the header, in 16 bits, on any host |
| Trace.PseudoHeaderFields | Program_1/trace.c:159-166 | addresses, zero byte, protocol 6 and the length in network order, on any host |
| Trace.PseudoHeaderSum | Program_1/trace.c:159-171 | the pseudo-header adds the sum of both addresses, 6 and the length |
| Trace.TcpVerdict | Program_1/trace.c:143-177 | for the segment the IP header announces, on any host: correct exactly when addresses, 6, length and segment sum to 0xFFFF, but for one kind of input |
| Multicast.BuildMulticast | Program_2/cclient.c:347-423 | for every single-spaced command the packet holds sender, handles in order and message |
| Multicast.CopyHandles | Program_2/cclient.c:378-409 | the strtok loop, in place |
| Multicast.StrtokFindsFirstWord | Program_2/cclient.c:378-408 | each strtok call takes the first word of any text and goes on behind the space that ends it |
| Multicast.AtoiReadsDecimal | Program_2/cclient.c:388 | atoi reads the number its decimal digits stand for and stops at the first other character |
| Multicast.EveryListHasCommand | Program_2/cclient.c:388-391 | every list of up to 255 handles has a command, with its length in digits as the count and no other |
| Multicast.ParseMulticast | Program_2/helper.c:173-215 | both passes end at the same offset and yield sender, handles and message |
| Multicast.FindMessage | Program_2/helper.c:187-199 | the offset-only pass |
| Multicast.Destinations | Program_2/helper.c:208-215 | the pass that takes each handle out |
| Multicast.PacketParsesBack | Program_2/helper.c:173-215 | parsing a built packet gives back sender, handles in order and message |
| Multicast.PacketFields | Program_2/cclient.c:347-373 | flag 6, the sender with its length, the number of handles, then handles and message |
| Handles.HandleTable.constructor | Program_2/helper.c:10-20 | the empty table |
| Handles.HandleTable.AddHandle | Program_2/helper.c:407-433 | both loops in place; refused exactly when the handle is in use or the table is full |
| Handles.HandleTable.CloseConnection | Program_2/server.c:140-145 | the loop over the table, in place |
| Handles.AddedRegisters | Program_2/helper.c:407-433 | a registration adds exactly its handle and socket in the first free entry, a refused one changes nothing |
| Handles.DroppedUnregisters | Program_2/server.c:140-145 | a closed connection removes exactly the handles of its socket |
| Handles.HandlesStayUnique | Program_2/helper.c:407-433 | over every run of registrations and disconnects no two entries in use hold the same handle |
| Handles.TableIsDirectory | Program_2/helper.c:407-433 | over every run of registrations and disconnects the table is a directory that starts empty and takes up to 100 different handles |

## Left out

- The filename handshake and the forking of one server per client: they depend on addresses and processes; the model starts after `windowreset` on both sides.
- Sockets, `poll` as a system call, file descriptors, memory allocation and printing: a poll is a choice of what arrives.
- The error-injecting send and receive library: its effect (drop, flip, reorder) is the network's choice.
- Wrap-around of sequence numbers: `seq % win_sz` does not survive 2^32, and is assumed away.
- A guarantee that a transfer does complete: the client may give up; the model proves that completion stays possible, and when it is not.
- Multicast.BuildMulticast: commands that are not single-spaced, or whose count does not match, are not covered; the C code then reads or copies from the wrong place.
- Program_2 PDU framing, unicast messages and the lookup of a destination socket, whose prefix match ignores whether an entry is in use.
- The header printers of the tracer and the polling and address wrappers: no hard property.
