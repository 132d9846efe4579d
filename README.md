# vpn-ste-win core, modelled in Dafny

vpn-ste-win carries Ethernet frames between Windows machines over TCP. It has
three parts:

- **ste** is a virtual NIC driver.
- **sted** is the tunnel daemon. It moves frames between that NIC and a TCP
  connection to a hub, optionally through an HTTP proxy using CONNECT.
- **stehub** is the hub. It rebroadcasts what it receives from one sted to
  every other sted.

This project models the parts of these programs that carry risk:

- **The wire format.** read_ste encodes each frame as an 8-byte header
  (`len`, `orglen`, big-endian), then the frame, then zero padding to a
  multiple of 4. read_socket and read_socket_header reassemble frames from
  any split of the TCP stream.
- **sted's event loop.** This covers `sted_stat`, the flush rule, write_socket
  and read_ste, and the reconnect path. It also covers open_socket, the
  CONNECT handshake, open_ste and the service control handler.
- **stehub's registry and relay loop.** This covers add, delete and find on
  the connection list, the accept path and the receive-and-forward pass.
- **The getopt replacement** that both daemons use.
- **The driver's framing and bookkeeping.** This covers the send and receive
  queues and the adapter list. It also covers the dispatch routines for
  sted's ReadFile, WriteFile and DeviceIoControl, SteCopyPacketToIrp, and the
  miniport entry points: initialize, query, set, send, reset and return packet.

Modules follow the sources:

| module | file | models |
|---|---|---|
| `Bytes`, `Ndis`, `Sockets`, `CText`, `Wrappers` | bytes, ndis, sockets, ctext, wrappers | octets, htonl/ntohl, memcpy, NDIS vocabulary, errno classes, strtok/atoi/`%d` |
| `FrameCodec` | codec.dfy | the message format read_ste writes |
| `Reassembly` | reassembly.dfy | read_socket and read_socket_header as functions of the cursor fields of `sted_stat` |
| `Connect` | connect.dfy | open_socket's `host[:port]` parsing and send_connect_req |
| `Sted` | sted.dfy | `class StedStat`: `sted_stat` with its `wdatabuf`/`sendbuf`/`dummyhead` arrays, and the functions of sted_socket.c and sted.c that work on it |
| `StedService` | service.dfy | sted_svc_main's loop, the control handler and the err block |
| `StedHub` | hub.dfy | `class Hub`: the `conn_stat` list and stehub's main loop |
| `Getopt` | getopt.dfy | `class Getopt`: getopt_win.c's static state and its scan |
| `SteLocal` | ste_local.dfy | `class Queue`, `class Adapter`, `class AdapterList`, and the dispatch routines |
| `SteMiniport` | ste_miniport.dfy | the miniport entry points of ste.c |

The C code's external effects are modelled as explicit outcomes or logs:

- **Parameters.** Results of recv, send, accept, select and
  WaitForMultipleObjects are passed in as values. So are the results of
  ReadFile and CreateFile, and of NDIS allocation, and the system time.
- **Logs.** Bytes sent to the socket, frames written to the device and
  ioctls issued are appended to ghost-free logs. Packets completed, indicated
  and freed by the driver are logged the same way.

Undefined behaviour in the C code is modelled as an explicit value: a memcpy
outside `wdatabuf` is the stop `Fault`, and a NULL dereference is `NullDeref`
or `NullAdapterFault`.

A few behaviours of the code a reader might not expect:

- **Non-numeric proxy status.** A reply status without digits is not a
  failure. atoi gives 0, which send_connect_req returns as success; see
  `Connect.NonNumericStatusAccepted`.
- **Failed proxy recv.** A recv from the proxy that fails with EINTR,
  EWOULDBLOCK or errno 0 counts as success.
- **select result.** select's result is never tested: line 534 is written
  `ret = 0`. Only the read set decides, so a timeout fails through
  `FD_ISSET`.
- **Flush timing.** The flush rule is applied by every read_ste, inside the
  drain, not once after it.
- **Transient send errors.** A send that fails with a transient error still
  empties `sendbuf`. The bytes are dropped (`Sted.FlushTransientDrops`).

## Model

| member | source | states |
|---|---|---|
| Bytes.BigEndian32RoundTrip | exe/sted/sted.c:694-695 | ntohl of the four octets read_ste stores with htonl gives back the value |
| Bytes.FromBigEndian32RoundTrip | exe/sted/sted_socket.c:308-312 | four header octets are determined by the value ntohl reads from them |
| Bytes.CopyInto | exe/sted/sted.c:702-703 | memcpy into an array: the window holds the source, every other byte is kept |
| Bytes.SpliceAdjacent | exe/sted/sted_socket.c:337-347 | two memcpys into adjacent windows of wdatabuf equal one memcpy of the concatenation |
| Bytes.BigEndian32 | exe/sted/sted.c:694-695 | htonl and the store give four octets |
| Bytes.FromBigEndian32 | exe/sted/sted_socket.c:416-417 | ntohl of four octets is a 32-bit unsigned value |
| Bytes.ToInt32 | exe/sted/sted_socket.c:416-417 | a u_long stored into an int lands in the int range and keeps its value modulo 2^32 |
| Bytes.ToInt32Small | exe/sted/sted_socket.c:416-417 | a value below 2^31 is stored unchanged |
| Bytes.Zeros | exe/sted/sted.c:704-704 | memset gives n octets, every one zero |
| Bytes.Splice | exe/sted/sted.c:702-703 | a memcpy keeps every byte outside its window and puts the source bytes in it |
| Bytes.SpliceUpTo | exe/sted/sted_socket.c:348-363 | the buffer up to the end of a copy is what was before it followed by the copied bytes |
| FrameCodec.Pad | exe/sted/sted.c:692-695 | the padding is at most 3 bytes and makes header + frame + padding a multiple of 4 |
| FrameCodec.Header | exe/sted/sted.c:694-695 | the header's two words read back (ntohl) as len and orglen |
| FrameCodec.EncodeMessage | exe/sted/sted.c:692-710 | what read_ste appends: length a multiple of 4, the frame at offset 8, zero padding after it, len = frame + pad and orglen = frame in the header |
| FrameCodec.EncodeMessageParts | exe/sted/sted.c:702-704 | the appended bytes are exactly the header, the frame and pad zero bytes |
| FrameCodec.Encapsulate | exe/sted/sted.c:692-710 | the message around a device frame is one the decoder accepts, and it carries that frame |
| FrameCodec.EncodeMessageIsWire | exe/sted/sted.c:692-710 | read_ste's bytes are the wire form of that message |
| FrameCodec.PadExamples | exe/sted/sted.c:692-695 | 46 bytes get 2 bytes of padding, 1500 none, 1514 two |
| FrameCodec.Wire | exe/sted/sted.c:692-710 | a message on the wire takes the header and len bytes |
| FrameCodec.Frames | exe/sted/sted.c:692-710 | one frame per message, the i-th being the frame the i-th message carries |
| Reassembly.HeaderFields | exe/sted/sted_socket.c:416-417 | a header written with lengths below 2^31 reads back as the same two ints |
| Reassembly.ReadHeader | exe/sted/sted_socket.c:404-439 | read_socket_header completes the header exactly when the missing bytes are there, loses no byte, and sets datalen = dataleft = len and orgdatalen; otherwise it keeps all bytes and returns NULL |
| Reassembly.PayloadStep | exe/sted/sted_socket.c:318-379 | one pass of the loop body after the header: a pass that stops leaves a valid cursor unless it faults, and every frame it hands over has 0 < length <= ETHERMAX; a pass that goes on has used exactly dataleft bytes, completed one valid frame and left an idle cursor |
| Reassembly.PayloadCompletes | exe/sted/sted_socket.c:348-379 | a payload holding the rest of a checked frame faults or yields exactly the first orgdatalen bytes of wdatabuf and a reset cursor |
| Reassembly.PayloadShort | exe/sted/sted_socket.c:337-347 | a payload shorter than dataleft faults or is stored at datalen - dataleft with dataleft reduced by its length |
| Reassembly.Loop | exe/sted/sted_socket.c:301-380 | read_socket's loop over one chunk leaves a valid cursor unless it faults |
| Reassembly.LoopFrameLengths | exe/sted/sted_socket.c:318-330 | every frame handed to write_ste has 0 < length <= ETHERMAX |
| Reassembly.LoopEmpty | exe/sted/sted_socket.c:301-380 | an empty chunk changes nothing |
| Reassembly.HeaderResume | exe/sted/sted_socket.c:404-439 | read_socket_header resumes exactly where an incomplete call stopped |
| Reassembly.PayloadAppendPartial | exe/sted/sted_socket.c:337-379 | storing a partial payload and then the next bytes agrees with one pass over both |
| Reassembly.LoopSplit | exe/sted/sted_socket.c:301-380 | the loop over a + b is the loop over a continued with b |
| Reassembly.RunAppend | exe/sted/sted_socket.c:318-379 | the same split property from the payload part on |
| Reassembly.Feed | exe/sted/sted_socket.c:242-386 | read_socket once per received chunk leaves a valid cursor unless it faults |
| Reassembly.FeedIsLoop | exe/sted/sted_socket.c:242-386 | with no broken or unsafe header, chunk-by-chunk processing equals one pass over all the bytes |
| Reassembly.ChunkingInvariance | exe/sted/sted_socket.c:301-380 | two splits of the same bytes give the same frames, in the same order, and the same cursor |
| Reassembly.DecodeHeader | exe/sted/sted_socket.c:404-439 | the header of a well-formed message completes at once, gives its len and orglen, and leaves exactly the payload |
| Reassembly.DecodeOne | exe/sted/sted_socket.c:348-363 | one well-formed message yields its frame and leaves the cursor between messages |
| Reassembly.DecodeStream | exe/sted/sted_socket.c:301-380 | a stream of well-formed messages yields exactly their frames in order |
| Reassembly.WellFormedAnySplit | exe/sted/sted_socket.c:242-386 | however the stream is split into recv chunks, the frames handed to write_ste are the messages' frames |
| Reassembly.EncapsulateAll | exe/sted/sted.c:692-710 | each device frame becomes a well-formed message carrying it |
| Reassembly.EncodeAllIsWire | exe/sted/sted.c:692-710 | read_ste's bytes for a frame sequence are the wire form of their messages |
| Reassembly.TunnelRoundTrip | exe/sted/sted.c:692-710 | frames encoded by one sted are decoded unchanged and in order by the peer, under any chunking |
| Reassembly.OversizeFrameDiscarded | exe/sted/sted_socket.c:318-330 | a frame over ETHERMAX is encoded, but the peer treats its header as broken and drops it |
| Reassembly.BrokenHeaderDiscards | exe/sted/sted_socket.c:318-330 | a broken orglen resets the cursor and throws away the rest of the chunk |
| Reassembly.NegativeLenFaults | exe/sted/sted_socket.c:337-379 | a len that reads as a negative int leads to a memcpy of a negative size |
| Reassembly.OversizeLenFaults | exe/sted/sted_socket.c:337-379 | a len over STRBUFSIZE writes past wdatabuf once enough payload arrives |
| Reassembly.Reset | exe/sted/sted_socket.c:327-327 | dataleft, datalen and dummyheadlen back to zero, leaving an idle cursor and wdatabuf as it was |
| Reassembly.HeaderPart | exe/sted/sted_socket.c:302-313 | the header part of a pass: a complete header leaves a ready cursor and uses up bytes unless a payload was already pending; an incomplete one leaves a valid cursor |
| Reassembly.Run | exe/sted/sted_socket.c:318-379 | the loop from the payload part on leaves a valid cursor unless it faults |
| Reassembly.RunFrameLengths | exe/sted/sted_socket.c:318-330 | every frame handed over from the payload part on has 0 < length <= ETHERMAX |
| Reassembly.HeaderExtend | exe/sted/sted_socket.c:404-439 | bytes after a completed header do not change how it is read and are left for the payload |
| Reassembly.Stored | exe/sted/sted_socket.c:337-347 | storing a partial payload leaves a ready cursor still waiting, datalen - dataleft moved on by the bytes stored |
| Reassembly.PayloadAppendStopped | exe/sted/sted_socket.c:318-330 | more bytes do not rescue a pass that stops at a broken header or a fault |
| Reassembly.PayloadAppendExact | exe/sted/sted_socket.c:348-363 | a pass that ends exactly with its frame goes round again on the bytes that follow |
| Reassembly.PayloadAppendMore | exe/sted/sted_socket.c:364-379 | a pass that goes round again does so with the extra bytes appended |
| Reassembly.PayloadAppendShort | exe/sted/sted_socket.c:337-347 | two partial payloads agree with one partial payload of both |
| Reassembly.PayloadAppendFinish | exe/sted/sted_socket.c:337-379 | a partial payload and then the rest of the frame agree with one pass on both |
| Reassembly.FinishSplice | exe/sted/sted_socket.c:337-379 | two copies into wdatabuf, the stored part and then the rest, fill it as one copy of both |
| Reassembly.RunAppendStopped | exe/sted/sted_socket.c:318-330 | the split property when the first pass stops |
| Reassembly.RunAppendPartial | exe/sted/sted_socket.c:337-379 | the split property when the first chunk leaves the frame incomplete |
| Reassembly.RunAppendExact | exe/sted/sted_socket.c:348-379 | the split property when the first chunk ends exactly with the frame |
| Connect.SplitHostPortFull | exe/sted/sted_socket.c:109-117 | "host:port" reads back as that host and port |
| Connect.SplitHostPortDefault | exe/sted/sted_socket.c:113-114 | a host without a port gets PORT_NO |
| Connect.SplitHostPortMissing | exe/sted/sted_socket.c:109-112 | open_socket fails exactly when the argument is nothing but colons |
| Connect.SplitHostPortLeadingColon | exe/sted/sted_socket.c:109-117 | ":port" names a host called port and uses PORT_NO |
| Connect.StrtokKeepsHostOnly | exe/sted/sted_socket.c:109-117 | the string strtok leaves behind reads back as the same host with PORT_NO |
| Connect.ReopenLosesPort | exe/sted/sted_socket.c:109-117 | "hub:8080" gives port 8080 the first time and port 80 on the next open_socket of the same buffer |
| Connect.WirePort | exe/sted/sted_socket.c:137-137 | htons((short)port) is the port modulo 2^16, and is unchanged for ports below 2^16 |
| Connect.RecordedName | exe/sted/sted_socket.c:122-122 | strncpy keeps a prefix of at most MAXHOSTNAME characters |
| Connect.UpToNul | exe/sted/sted_socket.c:524-526 | a C string's text is a prefix without NUL, ended by a NUL or by the end of the bytes |
| Connect.FieldText | exe/sted/sted_socket.c:524-526 | %s on hub_name reads the recorded name when it is shorter than MAXHOSTNAME; a full field is read on into the bytes past it up to the first NUL |
| Connect.FullHubNameOverreads | exe/sted/sted_socket.c:122-122 | as written, a hub name of 30 or more characters followed by a non-NUL byte is sent with extra characters, so the request differs from the one for the recorded name |
| Connect.SentRequestFits | exe/sted/sted_socket.c:524-526 | the request sent fits connect_req when the name is shorter than MAXHOSTNAME or a NUL follows the full field |
| Connect.Octets | exe/sted/sted_socket.c:527-527 | the request goes out one byte per character |
| Sted.OpenSends | exe/sted/sted_socket.c:214-222 | open_socket hands send at most one buffer, exactly when it is connected to a proxy and send accepts the CONNECT request |
| Sted.OpenSendsRequest | exe/sted/sted_socket.c:122-122 | for "h:port" with h shorter than MAXHOSTNAME, what is sent is ConnectRequest(h, port), and it fits connect_req |
| Connect.ConnectRequestFits | exe/sted/sted_socket.c:524-526 | the CONNECT request fits connect_req for a hub text of at most MAXHOSTNAME characters and an int port; what %s reads from a full field can be longer (FieldText) |
| Connect.ConnectRequestLine | exe/sted/sted_socket.c:524-526 | the request line splits into CONNECT and an authority that reads back as the hub's endpoint |
| Connect.StatusLineRead | exe/sted/sted_socket.c:566-581 | "version code reason" gives 0 for code 200 and the code otherwise |
| Connect.NonNumericStatusAccepted | exe/sted/sted_socket.c:574-581 | a status token with no digit reads as 0, which counts as success |
| Connect.ConnectAccepted | exe/sted/sted_socket.c:504-585 | send_connect_req returns 0 exactly after a readable non-empty reply whose status, read from the received bytes and on into buf's stale contents up to a NUL, is 200 (or 0), or after a transient recv failure |
| Connect.ConnectRequestShape | exe/sted/sted_socket.c:524-526 | the request is CONNECT, a space, the authority h:p, a space and the rest |
| Connect.AuthorityNoSpace | exe/sted/sted_socket.c:524-526 | the authority holds no space when the hub name holds none |
| Connect.ReplyText | exe/sted/sted_socket.c:509-570 | the text strtok reads from buf is never longer than the bytes given, and a shorter text stops at a NUL |
| Connect.ReplyTextChars | exe/sted/sted_socket.c:509-570 | each character strtok reads is the byte at its place in buf, and none is NUL |
| Connect.ReplyTextAppend | exe/sted/sted_socket.c:509-570 | received bytes with no NUL are read on into whatever buf held after them |
| Connect.ReplyTextTerminated | exe/sted/sted_socket.c:509-570 | a NUL right after the received bytes ends the text there |
| Connect.ReplyTextStaleFive | exe/sted/sted_socket.c:509-570 | a stale '5' and a NUL after the received bytes add a '5' to the text |
| Connect.Reply200Text | exe/sted/sted_socket.c:545-566 | the twelve bytes of "HTTP/1.1 200", with no NUL, read as that text |
| Connect.StatusOfDigits | exe/sted/sted_socket.c:566-581 | a reply of two tokens whose second is digits gives 0 for 200 and that number otherwise |
| Connect.StaleBytesDecideStatus | exe/sted/sted_socket.c:509-581 | the same "HTTP/1.1 200" reply gives 0 when buf held a NUL after it and 2005 when it held a stale '5' first |
| Connect.SplitHostPort | exe/sted/sted_socket.c:109-117 | a host name found is non-empty and holds no colon; an argument without a colon gets PORT_NO |
| Connect.ConnectRequest | exe/sted/sted_socket.c:524-526 | for the hub text %s reads (FieldText), the request starts with "CONNECT " and ends with the blank line CRLF CRLF |
| Connect.StatusOf | exe/sted/sted_socket.c:566-581 | 200 is never returned as such; 0 means two tokens were found and the second reads as 200 or as 0 |
| CText.Atoi | exe/sted/sted_socket.c:574-574 | text that is all white space reads as 0; a negative value needs a minus sign after the white space |
| Sockets.Accepted | exe/sted/sted_socket.c:468-468 | the bytes that leave are a prefix of the buffer, as long as the count send returned or the whole buffer |
| CText.Tokens | exe/sted/sted_socket.c:566-573 | the tokens strtok returns are non-empty and hold no delimiter |
| CText.TokensJoin | exe/sted/sted_socket.c:566-573 | a delimiter separates the tokens of its two sides |
| CText.TokensEmpty | exe/sted/sted_socket.c:109-112 | strtok finds nothing exactly when the string holds only delimiters |
| CText.StrtokLeavesFirstToken | exe/sted/sted_socket.c:109-117 | of the tokens, only the first survives in the string strtok leaves |
| CText.AtoiDecimal | exe/sted/sted_socket.c:574-574 | atoi reads back what %d wrote |
| CText.AtoiNoDigits | exe/sted/sted_socket.c:574-574 | text with no digit reads as 0 |
| CText.DecimalInt32Length | exe/sted/sted_socket.c:524-526 | %d of a 32-bit int takes at most 11 characters |
| CText.TokenPrefix | exe/sted/sted_socket.c:109-117 | the token strtok cuts is a prefix without the delimiter, ended by the delimiter or the end of the string |
| CText.TokensCons | exe/sted/sted_socket.c:109-117 | on text starting inside a token, the first call returns that token and the later calls the tokens of the rest |
| CText.TokenPrefixAppend | exe/sted/sted_socket.c:109-117 | text after a delimiter does not lengthen the first token |
| CText.TokensSingle | exe/sted/sted_socket.c:109-117 | a non-empty string without the delimiter is one token |
| CText.StrtokLeaves | exe/sted/sted_socket.c:109-117 | the string strtok leaves behind is a prefix of the argument |
| CText.LeadingDigits | exe/sted/sted_socket.c:574-574 | the digits atoi reads: all digits, and the next character, if any, is not one |
| CText.SkipSpace | exe/sted/sted_socket.c:574-574 | the white space atoi skips: what remains is a suffix that does not start with white space |
| CText.Decimal | exe/sted/sted_socket.c:524-526 | %d writes at least one character, and neither white space nor '+' first |
| CText.NatDecimal | exe/sted/sted_socket.c:524-526 | the digits of a natural number are a non-empty run of digits |
| CText.NatDecimalValue | exe/sted/sted_socket.c:524-526 | those digits denote the number |
| CText.NatDecimalBound | exe/sted/sted_socket.c:524-526 | a number below 10^k has at most k digits |
| CText.DecimalHasNo | exe/sted/sted_socket.c:524-526 | %d writes only digits and a minus sign |
| CText.AtoiOfDigits | exe/sted/sted_socket.c:574-574 | atoi of digits followed by a non-digit is their value |
| CText.AtoiOfNegDigits | exe/sted/sted_socket.c:574-574 | with a leading minus sign it is the negated value |
| Sted.FlushOutcome | exe/sted/sted_socket.c:454-487 | write_socket fails exactly on a hard send error with bytes pending and keeps them then; otherwise sendbuf ends empty and at most one send of a prefix reaches the wire |
| Sted.FlushTransientDrops | exe/sted/sted_socket.c:468-482 | a transient send error drops the pending bytes |
| Sted.ReadSteStep | exe/sted/sted.c:692-731 | read_ste returns -1 or the frame size, makes at most one send, and on -1 keeps the old pending bytes and the new message and sends nothing |
| Sted.ReadSteOutcome | exe/sted/sted.c:692-731 | read_ste fails exactly when a due flush meets a hard error; it flushes exactly when the rule says so, sending the old pending bytes followed by the new message |
| Sted.ReadSteKeepsThreshold | exe/sted/sted.c:716-725 | without hard send errors sendbuf never holds more than SENDBUF_THRESHOLD bytes between calls |
| Sted.FullFramesBatchInPairs | exe/sted/sted.c:716-725 | one 1514-byte frame is held, and the second sends both |
| Sted.DevicePathReadsBack | exe/sted/sted.c:497-497 | the instance number reads back from the device path, which fits devpath |
| Sted.RunCases | exe/sted/sted_socket.c:301-380 | the loop after a header is the payload pass followed, if it goes on, by the loop again |
| Sted.StedStat.constructor | exe/sted/sted.c:195-202 | a zeroed sted_stat: idle cursor, empty sendbuf, no socket, no device |
| Sted.StedStat.ReadSocketHeader | exe/sted/sted_socket.c:404-439 | the array version of read_socket_header does what ReadHeader says, returning the new read position and count |
| Sted.StedStat.TakeHeader | exe/sted/sted_socket.c:410-417 | the completing branch fills dummyhead and reads the lengths from it |
| Sted.StedStat.WriteSte | exe/sted/sted.c:583-617 | write_ste hands the first orgdatalen bytes of wdatabuf to the device |
| Sted.StedStat.CompleteFrame | exe/sted/sted_socket.c:348-379 | the last piece goes into wdatabuf, the frame is written and the cursor reset |
| Sted.StedStat.StorePartial | exe/sted/sted_socket.c:337-347 | the partial branch does what PayloadStep says |
| Sted.StedStat.FinishFrame | exe/sted/sted_socket.c:348-379 | the exact and more-bytes branches do what PayloadStep says, including the fault |
| Sted.StedStat.EmitFrame | exe/sted/sted_socket.c:348-379 | a frame that fits wdatabuf is completed and written as PayloadStep says |
| Sted.StedStat.PayloadPass | exe/sted/sted_socket.c:318-379 | one payload pass on the arrays equals PayloadStep, with the frame it completes written to the device |
| Sted.StedStat.Round | exe/sted/sted_socket.c:301-380 | one round of the loop either ends it with the cursor, frames and stop the rest of Loop gives, or writes one frame and goes on from a later position |
| Sted.StedStat.HeaderRound | exe/sted/sted_socket.c:302-313 | the header part of a round: NULL ends the loop with the cursor Loop gives |
| Sted.StedStat.Reassemble | exe/sted/sted_socket.c:301-380 | the loop on the arrays leaves the cursor, the device writes and the stop that Loop gives |
| Sted.StedStat.ReadSocket | exe/sted/sted_socket.c:242-386 | a transient recv error returns 0, a hard error or EOF returns -1, and neither changes the cursor; otherwise the byte count is returned and Loop's effect applied |
| Sted.StedStat.WriteSocket | exe/sted/sted_socket.c:454-487 | write_socket has the effect Flush describes on sendbuf and the wire |
| Sted.StedStat.AppendMessage | exe/sted/sted.c:702-710 | the three writes at sendbuf + sendbuflen append exactly the encoded message |
| Sted.StedStat.ReadSte | exe/sted/sted.c:632-732 | a failed or empty ReadFile returns 0 and changes nothing; otherwise the message is appended and flushed as ReadSteStep says, or the overflow is reported |
| Sted.StedStat.Enqueue | exe/sted/sted.c:702-725 | append then flush by the rule, as ReadSteStep says |
| Sted.StedStat.OpenSocket | exe/sted/sted_socket.c:92-227 | parse, record, connect and handshake: a socket is returned exactly when dialling and, with a proxy, the handshake succeed; strtok truncates the caller's buffers; the CONNECT request send accepts is logged on the wire as OpenSends says |
| Sted.StedStat.OpenSte | exe/sted/sted.c:488-524 | CreateFile on the device path; on success REGSVC is issued and the handle kept |
| StedService.DrainSpec | exe/sted/sted.c:321-336 | a drain makes at most one send per read |
| StedService.DrainKeepsThreshold | exe/sted/sted.c:321-336 | the batching bound holds over a whole drain |
| StedService.DrainNeverOverflows | exe/sted/sted.c:321-336 | on Ethernet frames sendbuf cannot overflow while the bound holds |
| StedService.DrainDelivers | exe/sted/sted.c:321-336 | with whole sends, the bytes sent followed by those pending are the old pending bytes followed by the frames' messages, in order |
| StedService.DrainShortLastEmpties | exe/sted/sted.c:716-725 | a drain that ends on a short frame leaves nothing pending |
| StedService.DrainThroughTunnel | exe/sted/sted.c:321-336 | end to end: frames read by one sted are written unchanged and in order to the peer's device |
| StedService.StopRelease | exe/sted/sted.c:771-784 | the STOP control unregisters an open handle once and leaves INVALID_HANDLE_VALUE |
| StedService.ErrBlockAsWritten | exe/sted/sted.c:355-359 | the err block tests against NULL |
| StedService.StopThenErrBlockRepeats | exe/sted/sted.c:355-359 | after STOP the err block sends UNREGSVC again, on the invalid handle |
| StedService.ErrBlock | exe/sted/sted.c:355-359 | the corrected err block releases only an open device |
| StedService.UnregisterOnce | exe/sted/sted.c:355-359 | with that test an open device is unregistered exactly once, with or without a stop |
| StedService.DrainTurn | exe/sted/sted.c:321-336 | one read_ste of the drain behaves as DrainSpec says |
| StedService.DrainDevice | exe/sted/sted.c:321-336 | the do/while read_ste drain has exactly DrainSpec's effect |
| StedService.Service.constructor | exe/sted/sted.c:202-235 | the hub argument defaults to localhost:80, with a zeroed sted_stat |
| StedService.Service.Reconnect | exe/sted/sted.c:307-320 | corrected (the Findings row for exe/sted/sted_socket.c:109-117): close and reopen with the original -h and -p text; the cursor and pending bytes are kept, and the wire gains what OpenSends says |
| StedService.Service.OnSocket | exe/sted/sted.c:307-320 | corrected (reconnects as in the Findings row for exe/sted/sted_socket.c:109-117): the socket event: Loop's frames are written; a hard error or EOF reconnects, logging OpenSends on the wire, and a failed reconnect clears bRunning |
| StedService.Service.OnDevice | exe/sted/sted.c:321-336 | corrected (reconnects as in the Findings row for exe/sted/sted_socket.c:109-117): the device event: the drain as DrainSpec says with the cursor untouched; a failed flush closes the socket and reconnects, logging OpenSends after the drain's sends, clearing bRunning on failure; a message that would overflow sendbuf ends the run |
| StedService.Service.CtrlHandler | exe/sted/sted.c:745-789 | STOP, PAUSE, CONTINUE and other controls change exactly what the handler changes |
| StedService.Service.HandleEvent | exe/sted/sted.c:301-353 | corrected (reconnects as in the Findings row for exe/sted/sted_socket.c:109-117): one loop round by event; wait failure, timeout and unknown index change nothing |
| StedService.Service.Start | exe/sted/sted.c:287-297 | open_ste, then open_socket; bRunning is set only when both succeed; the wire gains OpenSends once the device is open |
| StedService.Service.Run | exe/sted/sted.c:301-353 | corrected (reconnects as in the Findings row for exe/sted/sted_socket.c:109-117): the loop keeps the device registered until a stop releases it |
| StedService.Service.Release | exe/sted/sted.c:355-359 | corrected (the Findings row for exe/sted/sted.c:355-359): the err block releases only an open device |
| StedService.Service.Serve | exe/sted/sted.c:193-362 | corrected (the Findings row for exe/sted/sted.c:355-359 and the Findings row for exe/sted/sted_socket.c:109-117): a failed open_ste issues no ioctl; once the loop has stopped, an opened device has been registered and unregistered exactly once each and holds INVALID_HANDLE_VALUE |
| StedService.FramesOf | exe/sted/sted.c:321-336 | the frames the device turns bring, one per turn, in order |
| StedService.FromDeviceFits | exe/sted/sted.c:321-336 | frames read from the device fit the encoding |
| StedService.DeliverFacts | exe/sted/sted.c:716-725 | a read_ste of a device frame with whole sends does not fail, keeps the bound and does not overflow sendbuf |
| StedService.DeliverStep | exe/sted/sted.c:702-725 | one read_ste with whole sends: what it sends, then what the rest sends and keeps, is the old pending bytes, its message and the rest's messages |
| StedService.DrainUnfold | exe/sted/sted.c:321-336 | the drain is the first read_ste's sends followed by the rest's |
| StedHub.Find | exe/stehub/stehub.c:451-465 | the first entry for fd, or None when no entry has it |
| StedHub.RemoveAtFacts | exe/stehub/stehub.c:423-439 | unlinking keeps the other entries in order, keeps the registry free of duplicates and removes exactly that socket |
| StedHub.AppendFacts | exe/stehub/stehub.c:396-410 | appending a fresh socket keeps the registry free of duplicates |
| StedHub.FindAsWrittenFaults | exe/stehub/stehub.c:451-465 | find_conn_stat as written agrees with Find on a registered socket and reads through NULL exactly when the socket is absent |
| StedHub.FindAsWritten | exe/stehub/stehub.c:451-465 | an entry the as-written lookup returns is in the registry and has the socket asked for |
| StedHub.Pass | exe/stehub/stehub.c:302-380 | every entry a pass takes off the registry is closed, once: entries left plus sockets closed equal the entries at the start |
| StedHub.FindOnEmptyFaults | exe/stehub/stehub.c:451-465 | an empty registry reaches the NULL read |
| StedHub.Others | exe/stehub/stehub.c:352-357 | the peers a chunk is meant for are every other registered socket |
| StedHub.Broadcast | exe/stehub/stehub.c:352-378 | a dropped peer lies within the list and is not the reader |
| StedHub.BroadcastRule | exe/stehub/stehub.c:352-378 | send is called with the chunk for the other peers in list order, never for the reader; for all of them when no send fails hard, otherwise up to and including the first peer whose send fails hard, which is dropped |
| StedHub.Deliver | exe/stehub/stehub.c:364-364 | one record per send call, in order, carrying the chunk handed to send |
| StedHub.TurnAt | exe/stehub/stehub.c:305-379 | a turn of the pass always makes progress through the list, and each entry it takes off the registry it closes |
| StedHub.TurnRegistry | exe/stehub/stehub.c:305-379 | one turn keeps the registry |
| StedHub.PassRegistry | exe/stehub/stehub.c:302-380 | a pass keeps the registry free of duplicates and closes exactly the sockets it unregisters; every send goes from a ready socket to a different registered one |
| StedHub.ForwardFacts | exe/stehub/stehub.c:352-378 | a chunk is sent only from the reader to other registered sockets |
| StedHub.Hub.constructor | exe/stehub/stehub.c:167-218 | after listen: an empty registry and only the listener in fdset_saved |
| StedHub.Hub.AddConn | exe/stehub/stehub.c:396-410 | the new connection goes to the tail |
| StedHub.Hub.DeleteConn | exe/stehub/stehub.c:423-439 | the first entry for fd is unlinked |
| StedHub.Hub.FindConn | exe/stehub/stehub.c:451-465 | the corrected find returns the first entry for fd, or None exactly when fd is absent |
| StedHub.Hub.CloseConn | exe/stehub/stehub.c:321-324 | CLOSE, FD_CLR and delete_conn_stat keep the watched set equal to the registry |
| StedHub.Hub.FindAt | exe/stehub/stehub.c:451-465 | in a registry without duplicates an entry is the first for its socket |
| StedHub.Hub.SendChunk | exe/stehub/stehub.c:352-378 | the send loop makes exactly the deliveries Broadcast says |
| StedHub.Hub.Forward | exe/stehub/stehub.c:352-378 | the send loop, then the drop of the peer it stopped at |
| StedHub.Hub.PassStep | exe/stehub/stehub.c:305-379 | one entry of the pass does what TurnAt says |
| StedHub.Hub.RecvPass | exe/stehub/stehub.c:302-380 | the pass over the registry does what Pass says |
| StedHub.Hub.Round | exe/stehub/stehub.c:270-380 | a ready listener means one accept and no reads, and main returns -1 on a failed ioctlsocket or a hard accept error; otherwise the pass runs |
| StedHub.RemoveAt | exe/stehub/stehub.c:423-439 | unlinking an entry leaves one fewer |
| StedHub.RemoveAtIndex | exe/stehub/stehub.c:423-439 | the entries before the unlinked one stay, the ones after move up by one |
| StedHub.DeliverAppend | exe/stehub/stehub.c:364-364 | one more target adds one delivery at the end |
| StedHub.BroadcastUnfold | exe/stehub/stehub.c:352-378 | at a peer other than the reader a hard send error stops the loop there; otherwise the peer is sent to and the loop goes on |
| StedHub.PassResumes | exe/stehub/stehub.c:302-380 | a pass is its first turn followed by the pass from where that turn leaves off |
| Getopt.FirstIndex | exe/stehub/getopt_win.c:67-73 | the first index of the letter in optstring, or its length |
| Getopt.Step | exe/stehub/getopt_win.c:42-111 | a call that stores a value moves count on by two and stores the next element, which does not start with '-'; EOF leaves count and optarg alone |
| Getopt.StepProgress | exe/stehub/getopt_win.c:42-111 | each call returns EOF at the end of argv, or moves count on by one or two; it returns only EOF, ':' or a letter of optstring |
| Getopt.StepOptarg | exe/stehub/getopt_win.c:74-93 | optarg is set exactly for a known option with ':' whose next element exists and does not start with '-' |
| Getopt.Getopt.constructor | exe/stehub/getopt_win.c:40-45 | the initial static state |
| Getopt.Getopt.FindOption | exe/stehub/getopt_win.c:67-73 | the loop over optstring finds the first matching index |
| Getopt.Getopt.Next | exe/stehub/getopt_win.c:42-111 | a new optstring restarts at element 1; then one Step, whose count and optarg are kept |
| Getopt.Getopt.Collect | exe/stehub/getopt_win.c:42-111 | the callers' loop collects exactly ParseFrom |
| Getopt.ParseRender | exe/stehub/getopt_win.c:74-93 | every "-x value" with x taking a value and a value not starting with '-' reads back |
| Getopt.StedOptstring | exe/sted/sted.c:208-229 | sted's option string takes values for -h and -p |
| Getopt.StedOptionsExample | exe/sted/sted.c:208-229 | sted -h hub -p proxy yields both options with their values |
| Getopt.MissingValueExamples | exe/stehub/stehub.c:154-165 | a value starting with '-', or a missing value, gives ':' |
| Getopt.FirstIndexIs | exe/stehub/getopt_win.c:67-73 | the first index of the letter is the one before which it does not occur |
| Getopt.Render | exe/stehub/getopt_win.c:74-93 | options written as "-x value" take two argv elements each |
| Getopt.Expected | exe/stehub/getopt_win.c:74-93 | one parsed option per option written |
| Getopt.StepOnValue | exe/stehub/getopt_win.c:74-93 | "-x value" with x taking a value returns x with that value and moves count on by two |
| Getopt.ParseFromOption | exe/stehub/getopt_win.c:42-111 | the callers' loop on "-x value" yields x with its value, then the rest from two elements on |
| Ndis.TotalLength | sys/ste_local.c:1449-1455 | TotalPacketLength is the length of the chain's bytes |
| Ndis.Add32IsSum | sys/ste.c:930-934 | n in-place ULONG increments add n modulo 2^32 |
| Ndis.LittleEndian32RoundTrip | sys/ste.c:563-564 | a stored ULONG reads back as the value stored |
| Ndis.Inc32 | sys/ste.c:930-934 | a counter incremented in place stays a ULONG and rises by one modulo 2^32 |
| Ndis.Add32 | sys/ste.c:930-934 | n increments keep the counter a ULONG |
| Ndis.LittleEndian32 | sys/ste.c:563-564 | a stored ULONG takes four octets |
| Ndis.FromLittleEndian32 | sys/ste.c:563-563 | four octets read as a ULONG give a 32-bit unsigned value |
| Ndis.FromLittleEndian32RoundTrip | sys/ste.c:563-564 | four octets read as a ULONG and stored again are the same octets |
| Ndis.OidArrayBytes | sys/ste.c:389-389 | the supported-OID array takes four bytes per OID |
| SteLocal.Queue.constructor | sys/ste_local.c:112-121 | an empty queue with room for QueueMax packets |
| SteLocal.Queue.Put | sys/ste_local.c:1153-1187 | a full queue refuses with RESOURCES and is unchanged; otherwise the packet goes to the tail |
| SteLocal.Queue.Get | sys/ste_local.c:1206-1236 | the oldest packet, or RESOURCES on an empty queue |
| SteLocal.Queue.Drain | sys/ste_local.c:338-348 | the while-Get loops take every packet, oldest first |
| SteLocal.ReplayIsFifo | sys/ste_local.c:1153-1236 | taken then left equals old contents then accepted: first in, first out |
| SteLocal.ReplayBounded | sys/ste_local.c:1153-1187 | a queue never holds more than QueueMax packets |
| SteLocal.Adapter.constructor | sys/ste_local.c:112-131 | the zeroed adapter with empty queues and the initial filter |
| SteLocal.Adapter.Receive | sys/ste_local.c:698-802 | WriteFile on a found adapter: the packet is queued (count and Ipackets up, timer armed) or freed (Ierrors up), and NoResources counts allocation failures |
| SteLocal.Adapter.RecvTimerFunc | sys/ste_local.c:324-351 | every queued receive packet is indicated, oldest first |
| SteLocal.Adapter.ResetTimerFunc | sys/ste_local.c:266-305 | ResetTrys is incremented; the timer re-arms or the reset completes as ResetTimerDecision says |
| SteLocal.Adapter.Control | sys/ste_local.c:827-945 | REGSVC succeeds exactly with a valid event handle; UNREGSVC always succeeds; other codes fail |
| SteLocal.ReceivedFrame | sys/ste_local.c:743-750 | at most ETHERMAX bytes of the write, taken from its front |
| SteLocal.ReceiveOutcome | sys/ste_local.c:698-802 | a write succeeds exactly when its packet is queued, which needs room in the queue, and a queued packet is not freed; a failure reports 0 bytes; with no packet from the pool nothing is queued or freed |
| SteLocal.ReceiveAccountsForPacket | sys/ste_local.c:698-802 | each allocated packet is queued or freed, never both; the write succeeds exactly when it is queued, which is exactly when the receive queue has room; the protocols then get the frame cut to ETHERMAX and sted is told that length |
| SteLocal.ShortFrameDeliveredWhole | sys/ste_local.c:743-750 | a frame of at most ETHERMAX bytes arrives whole |
| SteLocal.ResetTimerDecision | sys/ste_local.c:280-296 | the reset completes with SUCCESS exactly when no packet is out; the timer re-arms only while packets are out and ResetTrys has not passed STE_MAX_WAIT_FOR_RESET |
| SteLocal.TimerCallsWhileOut | sys/ste_local.c:280-293 | while packets stay out, the timer re-arms until ResetTrys passes STE_MAX_WAIT_FOR_RESET and then fails |
| SteLocal.ResetGivesUpAfterTenTries | sys/ste_local.c:280-293 | from 0, ten re-arms and failure on the eleventh call |
| SteLocal.ResetSucceedsOncePacketsReturn | sys/ste_local.c:285-296 | with no packet out the reset completes with SUCCESS |
| SteLocal.MacAddress | sys/ste_local.c:147-154 | six octets: 0x0A, 0x00, then time bits; unicast and locally administered; the last octet is time + instance |
| SteLocal.DistinctInstancesDistinctMacs | sys/ste_local.c:147-154 | adapters created at the same time get distinct addresses |
| SteLocal.Unlinked | sys/ste_local.c:1310-1343 | removal of an absent element changes nothing; a present one shortens the list by one |
| SteLocal.UnlinkedSplices | sys/ste_local.c:1310-1343 | the corrected removal splices out exactly the first occurrence |
| SteLocal.UnlinkedAsWritten | sys/ste_local.c:1310-1343 | as written, removing an absent adapter changes nothing and removing a present one shortens the list |
| SteLocal.HeadRemovalLosesAdapters | sys/ste_local.c:1329-1330 | as written, removing the head of a longer list loses every adapter behind it |
| SteLocal.AdapterList.Insert | sys/ste_local.c:1252-1295 | the next instance number is given and the adapter appended; past STE_MAX_ADAPTERS - 1 it fails with RESOURCES and leaves the list unchanged |
| SteLocal.AdapterList.Remove | sys/ste_local.c:1310-1343 | corrected (the Findings row for sys/ste_local.c:1329-1330): FAILURE exactly when the adapter is absent; otherwise it is spliced out |
| SteLocal.AdapterList.FindAdapterByDeviceObject | sys/ste_local.c:1360-1389 | the first adapter of the device, or FAILURE |
| SteLocal.FindDevice | sys/ste_local.c:1360-1389 | the first position of an adapter for the device, or None exactly when there is none |
| SteLocal.AtMostMaxAdapters | sys/ste_local.c:1282-1287 | the list never holds more than STE_MAX_ADAPTERS adapters |
| SteLocal.CreateAdapter | sys/ste_local.c:54-183 | a failure frees the adapter and leaves the list; on success the new adapter is listed with its instance, its MAC address, empty queues and the initial filter |
| SteLocal.CopyChain | sys/ste_local.c:1465-1511 | the buffer loop moves a prefix of the chain's bytes, no more than the IRP holds |
| SteLocal.CopyChainWhole | sys/ste_local.c:1465-1511 | when the packet fits, a successful loop moved the whole frame, and mapped buffers always succeed |
| SteLocal.TruncatedPacketReportedCopied | sys/ste_local.c:1498-1504 | as written, a 100-byte packet into a 60-byte IRP reports success with 60 bytes |
| SteLocal.CopyOutcomeAsWritten | sys/ste_local.c:1408-1529 | as written, at most the IRP buffer's size is copied; a failure reports 0 bytes; a success needs a buffer and a packet within ETHERMAX and reports between ETHERMIN and the buffer's size |
| SteLocal.CopyOutcome | sys/ste_local.c:1408-1529 | the corrected copy moves at most the IRP buffer's size; a failure reports 0 bytes; a success needs a buffer holding the whole packet and reports between ETHERMIN and the buffer's size |
| SteLocal.CopyDeliversWholeFrame | sys/ste_local.c:1408-1529 | a successful copy moves the whole frame into the IRP and reports its length raised to ETHERMIN, within the IRP; the bytes past the frame are not written (CopyPacketToIrp leaves the buffer's old contents there); with mapped buffers it succeeds exactly when all the size checks pass |
| SteLocal.CopyOutcomeAgrees | sys/ste_local.c:1408-1529 | where the packet fits the IRP, the correction changes nothing |
| SteLocal.CopyBuffers | sys/ste_local.c:1465-1511 | the loop moves what CopyChain says into the front of the IRP buffer |
| SteLocal.CopyPacketToIrp | sys/ste_local.c:1408-1529 | corrected (the Findings row for sys/ste_local.c:1498-1504): status, information and IRP contents are those of the corrected CopyOutcome |
| SteLocal.EarlyWriteAsWritten | sys/ste_local.c:654-677 | as written, a write gets past its early checks exactly when it is non-empty, has a buffer and names a registered device, and then finds that device's adapter |
| SteLocal.EmptyWriteFaults | sys/ste_local.c:654-658 | as written, a zero-length write dereferences the NULL Adapter |
| SteLocal.UnknownDeviceWriteFaults | sys/ste_local.c:669-676 | as written, a write to an unknown device dereferences the NULL Adapter |
| SteLocal.ReadAsWritten | sys/ste_local.c:562-584 | as written, a read takes the head of a non-empty send queue and completes it to NDIS, with SUCCESS, only when the copy succeeded |
| SteLocal.DispatchWrite | sys/ste_local.c:622-808 | corrected (the Findings row for sys/ste_local.c:793-795): early failures touch no adapter; otherwise the found adapter receives the frame as ReceiveOutcome says, its queue, freed list, counters and receive timer change as Receive states, and nothing else of it or of any other adapter changes |
| SteLocal.FailedCopyLosesPacket | sys/ste_local.c:562-584 | as written, a packet whose copy fails leaves the queue and is never completed |
| SteLocal.DispatchRead | sys/ste_local.c:517-599 | corrected (the Findings row for sys/ste_local.c:562-584): an unknown device or an empty queue fails; otherwise the oldest packet is copied and always completed, with SUCCESS exactly when the copy succeeded; only the found adapter's send queue and completions and the IRP buffer change |
| SteLocal.DispatchIoctl | sys/ste_local.c:827-945 | REGSVC and UNREGSVC on the device's adapter, which change only its event registration; an unknown device fails and changes nothing |
| SteLocal.AdapterList.constructor | sys/ste.c:54-54 | the adapter list starts empty |
| SteLocal.Completions | sys/ste.c:924-929 | one NdisMSendComplete per packet, in order, all with the given status |
| SteLocal.IndexOf | sys/ste_local.c:1325-1343 | the position of the first occurrence, which holds the element and is preceded by no other |
| SteLocal.SpliceKeepsOrder | sys/ste_local.c:1310-1343 | unlinking one adapter keeps the instances of the others rising and below STE_MAX_ADAPTERS |
| SteLocal.FindDeviceFirst | sys/ste_local.c:1360-1389 | the first adapter with the device object is the one reported |
| SteLocal.InstanceAtLeastIndex | sys/ste_local.c:1267-1287 | an adapter's instance number is at least its position in the list |
| SteLocal.CopyChainUnroll | sys/ste_local.c:1465-1511 | one turn of the buffer loop: an unmapped or too long buffer stops the copy, one that fills the rest ends it, a shorter one is copied and the loop goes on |
| SteMiniport.SelectMedium | sys/ste.c:222-228 | found exactly when 802.3 is offered, at its first index |
| SteMiniport.MiniportInitialize | sys/ste.c:204-311 | UNSUPPORTED_MEDIA without 802.3; otherwise success exactly when SteCreateAdapter succeeds, and RESOURCES for any failure |
| SteMiniport.ValueBytesAsWritten | inc/ste_win.h:72-83 | SET_INFORMATION_BY_VALUE copies length bytes from the ULONG and past it |
| SteMiniport.ValueBytesAgree | inc/ste_win.h:72-83 | up to four bytes the corrected copy and the macro agree |
| SteMiniport.MulticastListLeaksStack | sys/ste.c:480-480 | the six-byte MULTICAST_LIST answer carries two stack bytes |
| SteMiniport.ValueBytesReadBack | inc/ste_win.h:72-83 | a four-byte answer reads back as its ULONG |
| SteMiniport.Information | sys/ste.c:387-490 | an OID outside the driver's list gets no answer, and every answer holds at least two bytes |
| SteMiniport.QueryInformation | sys/ste.c:364-509 | the information buffer keeps its size; an unknown OID gives NOT_SUPPORTED and leaves it untouched; a success writes at least two bytes and no more than the buffer holds |
| SteMiniport.Answer | sys/ste.c:495-508 | NOT_SUPPORTED for unknown OIDs; BUFFER_TOO_SHORT with the length needed; otherwise the answer is copied to the front and BytesWritten is its length |
| SteMiniport.AnsweredOids | sys/ste.c:364-509 | every OID of the supported list except PROTOCOL_OPTIONS is answered, no other |
| SteMiniport.SupportedListComplete | sys/ste.c:57-104 | STESupportedList names every OID the driver knows |
| SteMiniport.StatisticsReadBack | sys/ste.c:457-470 | the statistics OIDs read back as the adapter's counters |
| SteMiniport.FixedAnswers | sys/ste.c:389-454 | frame sizes, link speed, MAC options, version and addresses have their fixed values |
| SteMiniport.SetInformation | sys/ste.c:531-584 | PACKET_FILTER takes exactly four bytes as the new filter, any other length is INVALID_LENGTH with four needed, none read and the filter kept; LOOKAHEAD, PROTOCOL_OPTIONS and MULTICAST_LIST read every byte and change nothing; any other OID is INVALID_OID |
| SteMiniport.PacketFilterRoundTrip | sys/ste.c:531-584 | a filter set with four bytes is queried back as the same bytes |
| SteMiniport.AcceptedCount | sys/ste.c:888-943 | all packets are accepted when registered and they fit; none when unregistered or full |
| SteMiniport.AcceptedStep | sys/ste.c:916-940 | a packet is accepted exactly while sted is registered and there is room |
| SteMiniport.SendOne | sys/ste.c:916-940 | queued and signalled, with Opackets up, or completed with RESOURCES and Oerrors up |
| SteMiniport.SendPackets | sys/ste.c:888-943 | the accepted prefix is queued and signalled, and the rest completed with RESOURCES; the counters add up |
| SteMiniport.SendAccountsForEveryPacket | sys/ste.c:888-943 | Opackets + Oerrors rise by the number of packets, modulo 2^32 |
| SteMiniport.Reset | sys/ste.c:714-761 | sends aborted and receives freed; PENDING with the timer armed while packets are out, SUCCESS otherwise; the corrected count and ResetTrys = 0 |
| SteMiniport.ReturnPacket | sys/ste.c:847-867 | the packet returns, is freed and leaves the count |
| SteMiniport.BooksStep | sys/ste.c:714-761 | one event keeps RecvIndicatedPackets exact, except the as-written reset; the receive queue grows only up to STE_QUEUE_MAX |
| SteMiniport.CorrectedBooksBalanced | sys/ste.c:714-761 | with the corrected reset the count stays exact |
| SteMiniport.AsWrittenExcessPersists | sys/ste.c:742-749 | as written, the count's excess over the packets out never shrinks |
| SteMiniport.ResetDroppedPacketNeverSettles | sys/ste.c:742-749 | as written, one frame dropped by a reset keeps the count above zero for good |
| SteMiniport.CarriedTrysFailAtOnce | sys/ste_local.c:280-280 | as written, a reset after one that gave up fails on its first timer call |
| SteMiniport.ValueBytes | inc/ste_win.h:72-83 | the intended value answer: length bytes; from four bytes on, the ULONG's four little-endian octets followed by zero octets |
| SteMiniport.CompletionsSnoc | sys/ste.c:888-943 | completing one more packet adds one completion at the end |

## Left out

- I/O itself is not modelled, only its outcomes. recv, send, accept, select,
  WaitForMultipleObjects, ReadFile, WriteFile, CreateFile, gethostbyname and
  NDIS allocation are parameters or oracles.
- Concurrency and locking are left out: NDIS spin locks, interlocked
  operations and timer races. Each entry point runs to completion.
- The service control handler runs between loop rounds, never inside one.
- Service installation and removal (`sted_install_svc`, `sted_delete_svc`) are
  left out, and so are main's -I/-U switches.
- The following are left out because they only log or format:
  `print_err`, `print_usage`, `become_daemon`, `stat2string`, the driver's
  debug printing (`StePrintPacket`, `SteDebugPrint`) and the `DebugLevel`
  branches.
- The following driver routines are left out: `DriverEntry`,
  `SteMiniportShutdown`, `SteMiniportHalt`, `SteMiniportUnload`,
  `SteMiniportCheckForHang`, `SteDeleteAdapter`, `SteRegisterDevice`,
  `SteDeregisterDevice` and `SteDispatchOther`. They are resource release and
  device registration with no protocol state beyond what is modelled.
- StedService.Service.constructor: the model starts from a zeroed `sted_stat`.
  In sted.c:193-200 it is an uninitialised local, so the first `dummyheadlen`,
  `dataleft` and `sendbuflen` are whatever the stack holds.
- Sted.StedStat.ReadSte: a message that would run past `sendbuf` is reported
  as `overflow` and changes nothing. The program writes beyond the buffer
  then.
- Reassembly.Loop: a memcpy outside `wdatabuf` or of a negative size ends
  the model's run as `Fault`. What the program then does is not modelled.
- SteLocal.Adapter.Receive: `RecvIndicatedPackets` is an unbounded integer,
  not a 32-bit LONG.
- CText.AtoiDecimal: atoi returns the exact integer. Values outside `int`,
  where the C function's behaviour is undefined, are not modelled.
- Getopt.Getopt.Next: argv elements and optstring are strings without NUL.
  Reading past an element's end gives the terminator.
- StedHub.Hub.Round: select's read set is a parameter. The model does not
  check that it holds only watched sockets.
- StedHub.Hub.DeleteConn: requires the socket to be registered. For an
  absent socket `delete_conn_stat` (stehub.c:430-438) reads `conn->next->fd`
  through the last entry's NULL link, as `find_conn_stat` does. Every caller
  passes a registered socket.
- StedService.Service.Run: the contract states the device registration
  invariant over the whole loop. Per-event effects are stated by
  HandleEvent.
- Wait timeouts (1 s in sted, the CONNECT timeout of 10 s) are outcomes of
  the wait. Time itself is not modelled.
- The driver's `Ipackets`/`Opackets` counters wrap at 2^32 (`Inc32`).
  NDIS's own statistics are not modelled.
- The static HTTP status table of `stat2string` is left out.
- Connect.ReplyText: when neither the received bytes nor the stale rest of
  `buf` hold a NUL, strtok (sted_socket.c:566) reads past the end of the
  array. The model stops at the end of the bytes it is given.
- Connect.ConnectRequest: for a hub name of MAXHOSTNAME characters or more,
  strncpy (sted_socket.c:122) leaves `hub_name` without a NUL, and sprintf's
  %s (sted_socket.c:524-526) reads on into the rest of `sted_stat`. The model
  takes those bytes as the parameter `beyond` of `Dial`, not from the struct's
  layout, and does not model sprintf writing past `connect_req` when the text
  read is long.
- Sted.OpenSends: the request is logged whole when send does not fail; a
  short send of it is not distinguished.
- StedHub.Hub.SendChunk: stehub ignores the byte count send returns
  (stehub.c:364-368). A short send loses the chunk's tail for that peer, and a
  transient failure (EINTR, EWOULDBLOCK) drops the whole chunk for that peer.
  The model records the send calls, not the bytes that reached each peer.

## Findings

| source | as written | input that shows it | evidently intended | confidence | as-written member | corrected member |
|---|---|---|---|---|---|---|
| exe/sted/sted_socket.c:109-117 | strtok writes a NUL into the caller's -h buffer, so the reconnect in sted.c re-parses only the host and uses port 80 | `-h hub:8080`, then a hub disconnect | reconnect to the port given | not executed | Connect.ReopenLosesPort | StedService.Service.Reconnect |
| exe/sted/sted.c:355-359 | the err block tests `ste_handle != NULL`, but STOP leaves INVALID_HANDLE_VALUE, so UNREGSVC goes out a second time on an invalid handle | SERVICE_CONTROL_STOP on an open device | unregister once | not executed | StedService.StopThenErrBlockRepeats | StedService.UnregisterOnce |
| exe/stehub/stehub.c:458-464 | the loop tests `conn->next->fd` while `conn != NULL` and reads through NULL after the last entry | find_conn_stat on an fd that is not registered, including an empty list | return NULL | not executed | StedHub.FindAsWrittenFaults | StedHub.Hub.FindConn |
| sys/ste_local.c:1329-1330 | removing the head adapter sets the list head to NULL | remove the first of two adapters | unlink the head only | not executed | SteLocal.HeadRemovalLosesAdapters | SteLocal.UnlinkedSplices |
| sys/ste_local.c:793-795 | the error block increments `Adapter->Ierrors` with Adapter still NULL | a zero-length WriteFile, or a write on an unknown device | count the error only on a found adapter | not executed | SteLocal.EmptyWriteFaults | SteLocal.DispatchWrite |
| sys/ste_local.c:1498-1504 | the loop ends with success when one buffer fills the IRP exactly, even if more buffers follow | a 100-byte packet in buffers of 60 and 40 bytes read into a 60-byte IRP | fail a packet that does not fit | not executed | SteLocal.TruncatedPacketReportedCopied | SteLocal.CopyDeliversWholeFrame |
| sys/ste_local.c:562-584 | a packet whose copy fails has been taken off the send queue but is never completed to NDIS | a ReadFile with an IRP under ETHERMIN bytes | complete the packet with a failure status | not executed | SteLocal.FailedCopyLosesPacket | SteLocal.DispatchRead |
| sys/ste.c:742-749 | the receive packets a reset frees are never taken off `RecvIndicatedPackets` | one WriteFile, then a reset before the receive timer runs | count them down when freed | not executed | SteMiniport.ResetDroppedPacketNeverSettles | SteMiniport.CorrectedBooksBalanced |
| sys/ste_local.c:280-280 | `ResetTrys` is never set back to 0, so a later reset inherits the count | a reset that gave up, then another reset with a packet out | start each reset at 0 tries | not executed | SteMiniport.CarriedTrysFailAtOnce | SteMiniport.Reset |
| sys/ste.c:480-480 | MULTICAST_LIST answers 6 bytes copied from a 4-byte ULONG | a MULTICAST_LIST query | answer six zero bytes | not executed | SteMiniport.MulticastListLeaksStack | SteMiniport.ValueBytes |
