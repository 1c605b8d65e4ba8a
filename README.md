# Stop-and-wait file transfer, modelled in Dafny

This project models a small stop-and-wait file-transfer protocol.

- **Sender.** `Server.py` cuts a file into four fragments. It tags each fragment with its index and its 16-bit Internet checksum (RFC 1071, section 1). It sends each fragment behind a 4-byte big-endian header and resends it until the matching `ACK:<seq>` arrives. After five timeouts on one fragment it gives up: it sends "Transmission failed" and closes the connection.
- **Receiver.** `client/Client.py` checks each message against its checksum and replies `ACK:<seq>` or `NACK:<seq>`. It keeps the first good copy of each fragment in a four-slot buffer. It keeps reading until a closing notice arrives or the connection closes. Then, unless the loop crashed, it writes the concatenation as `received_<name>` if every slot is filled, and otherwise reports the file as incomplete.

The sockets are abstracted away:

- **Sender input.** The sender reads a finite sequence of events (`Inbound`). Each event is one received text, already stripped, or a `Timeout`. When the sequence runs out, the peer has closed the connection.
- **Receiver input.** The receiver reads a finite sequence of byte strings, one per `recv`.
- **Files.** The sender's file system is a map from file name to contents.

Modules:

- `Bytes`: bytes, 16-bit words, the big-endian word of two bytes, `Option`, and concatenation of byte strings with the layout of its parts.
- `Protocol`: the constants, including 4 fragments, minimum size 1 and 5 retries. It also holds the control texts, the ACK/NACK texts, the case-insensitive `exit` test and the ASCII encoding of texts.
- `InternetChecksum`: the checksum as a pure function. Lemmas cover the running-sum bound, the padding, and the congruence of the folded sum with the plain sum of words modulo 0xFFFF. Corollaries: any change to a single byte, and in particular any single-bit flip, changes the checksum.
- `HeaderCodec`: `struct.pack("!HH", …)` and `struct.unpack("!HH", …)` written as byte arithmetic, with round trips in both directions.
- `Fragmenter`: `split_file` as a pure function, whose contract gives the count and the numbering. Lemmas cover the sizes, the checksums, and that the fragments reassemble to the original.
- `Server`:
  - The loops of `checksum` and `split_file` are methods proved against the pure functions.
  - The retry loop, the transfer of a file and the request loop of `handle_client` are specification functions (`SendFragment`, `SendAll`, `Serve`).
  - Those loops are also methods (`TransmitFragment`, `TransmitFile`, `HandleRequest`, `HandleClient`) proved equal to those functions.
- `ServerProperties`: the promises of the retry and request loops.
  - Only a timeout consumes a retry.
  - The matching ACK advances to the next fragment.
  - Five timeouts end the transfer with "Transmission failed".
  - "File sent successfully" is sent exactly when every fragment was acknowledged, in order.
- `Client`:
  - `calc_checksum` and `verify_checksum` are methods.
  - One pass of the receive loop is a specification function, `Deliver`, and the whole receive loop is another, `Receive`.
  - The `fragments` list is the array field of class `Receiver`. Its methods `Accept`, `Listen`, `Reassemble` and `RequestFile` are proved against those functions.
- `EndToEnd`: the two halves together.
  - **Control notices.** Every closing notice ends reception, and no data message is mistaken for one.
  - **Intact and corrupted frames.** An intact frame is acknowledged and stored. A frame with any single corrupted payload byte is refused. A corrupted header is not detected, because the checksum covers only the payload (see below).
  - **Lossless round trip.** One request, from the file name to the success notice: split, encode, send, decode, verify, store and concatenate. The receiver saves exactly the original bytes and replies exactly the acknowledgments the sender read. This covers one request read after the welcome line; see below for what the welcome line does.

Three behaviours of the code are stated as lemmas, because the code as written does them:

- **The "File is too small" notice.** The receiver does not recognise it. The message starts with the bytes `Fi`, so the receiver decodes it as a data message numbered 18025 (`EndToEnd.TooSmallNoticeNotRecognised`).
- **The welcome line.** The receiver never reads it apart from the fragments. Arriving as a message of its own, it is decoded as data message 22373, from the bytes `We`, with checksum field 0x6C63. The checksum of the rest is 0xBFBC, so the receiver answers `NACK:22373` (`EndToEnd.WelcomeNotRecognised`). The sender reads that reply while it awaits `ACK:0` for the first fragment of the first file. It resends fragment 0 with its retry count unchanged (`Server.SendFragmentRetry`). So in a real session, the first transfer does not see the clean exchange of the round-trip lemma.
- **A corrupted header.** The checksum covers only the payload, so a changed header byte passes verification. Take fragment 0 and turn the low byte of its sequence number from 0 into 1. The receiver answers `ACK:1` and stores fragment 0's payload in slot 1, where the first copy is kept for good (`EndToEnd.HeaderCorruptionUndetected`).

Crashes of the receiver are modelled as error results (`Client.Fault`), not as preconditions:

- `struct.unpack` raises on fewer than 4 bytes.
- Indexing the slot list raises for a verified sequence number of 4 or more.

## Model

| member | source | states |
|---|---|---|
| InternetChecksum.FoldValue | Server.py:24 | one end-around-carry fold of a sum of two 16-bit values is the sum itself below 0x10000, and the sum minus 0xFFFF otherwise |
| InternetChecksum.RunningSum | Server.py:20-24 | the running sum stays at most 0xFFFF after every fold |
| InternetChecksum.RunningSumStep | Server.py:21-24 | one loop iteration: the running sum over two more bytes is the fold of the old sum plus their big-endian word |
| InternetChecksum.Checksum | Server.py:17-25 | the checksum is a 16-bit value, and the checksum of the empty string is 0xFFFF |
| InternetChecksum.PaddingIsTransparent | Server.py:18-19 | for odd-length input, the checksum equals the checksum of the input with one zero byte appended |
| InternetChecksum.RunningSumIsOnesComplementSum | Server.py:20-24 | the folded running sum is congruent modulo 0xFFFF to the plain sum of all big-endian words (one's-complement addition) |
| InternetChecksum.SingleByteCorruptionDetected | Server.py:17-25 | changing any single byte of the input to a different value changes the checksum |
| InternetChecksum.SingleBitFlipDetected | Server.py:17-25 | flipping any one bit of any byte changes the checksum |
| HeaderCodec.EncodeHeader | Server.py:76 | the packed header is exactly 4 bytes |
| HeaderCodec.EncodeMessage | Server.py:76-77 | the message is 4 header bytes followed by the payload unchanged |
| HeaderCodec.DecodeMessage | client/Client.py:64-66 | decoding fails exactly when the data is shorter than 4 bytes |
| HeaderCodec.DecodeEncode | client/Client.py:64-66 | decoding an encoded message gives back its sequence number, checksum and payload |
| HeaderCodec.EncodeDecode | client/Client.py:64-66 | any data of 4 or more bytes decodes to a frame, and re-encoding that frame gives back the data |
| Protocol.ExitAnyCase | Server.py:55 | a name is the exit request exactly when it is "exit" in any mix of upper and lower case |
| Fragmenter.SliceBounds | Server.py:35-37 | each fragment's start is at most its end, and its end is at most the file size |
| Fragmenter.Fragments | Server.py:28-40 | there are exactly 4 fragments, numbered 0 to 3 in order |
| Fragmenter.FragmentsCarryChecksums | Server.py:34-39 | each fragment carries the checksum of its own payload |
| Fragmenter.FragmentSizes | Server.py:31-37 | every fragment but the last holds size // 4 bytes; the last holds size - 3 * (size // 4) |
| Fragmenter.FragmentSizesExample | Server.py:31-37 | a 101-byte file is cut into 25, 25, 25 and 26 bytes |
| Fragmenter.SlicesContiguous | Server.py:35-36 | each fragment starts where the previous one ends |
| Fragmenter.JoinFirstFragments | Server.py:34-39 | the first j payloads concatenated are the file up to where fragment j - 1 ends |
| Fragmenter.FragmentsReassemble | Server.py:28-40 | the payloads concatenated in order are the original file |
| Server.ComputeChecksum | Server.py:17-25 | the word loop with padding, folding and complement computes the checksum function |
| Server.SplitFile | Server.py:28-40 | the fragment loop builds exactly the list of fragments of the file |
| Server.SendFragment | Server.py:74-91 | an acknowledged fragment consumes at least one event, and the retry loop never reads past the input |
| Server.SendAll | Server.py:73-97 | a completed transfer ends within the input; a failed transfer's last message is "Transmission failed" |
| Server.ServeExit | Server.py:55-57 | "exit" in any case ends the session at once and sends nothing |
| Server.ServeMissingFile | Server.py:61-64 | a missing file is answered with "File not found", and the next request is served |
| Server.ServeTooSmall | Server.py:66-70 | a file below the minimum size is answered with the too-small text carrying its size, and the next request is served |
| Server.Serve | Server.py:48-100 | the request loop: a session that ends in a failed transfer has written "Transmission failed" last; one that ends on a timed-out read did read a timeout; one that ends on request did read an "exit" in some case |
| Server.Finish | Server.py:93-100 | the transfer's messages come first; a completed transfer is followed by "File sent successfully" and the next request; a failed one ends the session with exactly its messages, "Transmission failed" last; a closed connection ends it with exactly its messages |
| Server.Session | Server.py:43-47 | a session always writes the welcome line first; if it ends in a failed transfer, "Transmission failed" is its last message; if it ends on a timeout, the input held one |
| Server.ServeFile | Server.py:72-100 | any other request transmits the file's fragments, starting at the next event |
| Server.TransmitFragment | Server.py:74-91 | the retry loop of one fragment writes exactly the messages of the retry specification and ends as it does |
| Server.SendFragmentRetry | Server.py:75-91 | a reply other than the matching ACK resends the fragment; only a timeout increments the retry count |
| Server.SendAllAcked | Server.py:73-88 | after an acknowledged fragment, the transfer continues with the next fragment from the first unread event |
| Server.SendAllStops | Server.py:93-97 | an exhausted fragment ends the transfer with "Transmission failed"; a closed connection ends it with nothing more |
| Server.TransmitFile | Server.py:72-97 | the fragment loop writes exactly the messages of the transfer specification and ends as it does |
| Server.HandleRequest | Server.py:49-104 | one request either continues the request loop at a later event or ends the session, in agreement with the request-loop specification |
| Server.HandleClient | Server.py:43-112 | the whole session writes the welcome line and then exactly what the request-loop specification writes, and ends as it does |
| ServerProperties.SendFragmentResendsOnly | Server.py:75-91 | the retry loop writes nothing but copies of the fragment's message, one per event consumed, plus one when the input ran out |
| ServerProperties.SendFragmentAcked | Server.py:81-90 | an acknowledged fragment was acknowledged by the matching ACK, after no earlier matching ACK and with fewer than 5 timeouts |
| ServerProperties.SendFragmentExhausted | Server.py:75-93 | an exhausted fragment saw no matching ACK and exactly 5 timeouts, and the loop stopped right after the timeout that used up the budget |
| ServerProperties.SendFragmentMissing | Server.py:75-91 | when the input runs out, no matching ACK was seen and fewer than 5 timeouts occurred |
| ServerProperties.SendFragmentOutcome | Server.py:74-97 | the three outcomes of the retry loop together: resends only, acknowledged, exhausted (stopping right after the budget-using timeout), or input exhausted |
| ServerProperties.TimeoutsExhaustRetries | Server.py:89-97 | five timeouts in a row exhaust the retries after exactly five sends |
| ServerProperties.TransferOutput | Server.py:73-97 | a transfer writes only data messages, except a final "Transmission failed" exactly when it failed |
| ServerProperties.CompletedMeansAllAcked | Server.py:73-99 | a completed transfer saw the matching ACK of every fragment, in strictly increasing positions, in fragment order |
| ServerProperties.FileSentNoticeIffAllAcked | Server.py:72-100 | "File sent successfully" follows the fragments exactly when every fragment was acknowledged; a failed transfer ends the session with "Transmission failed" and no success notice |
| Client.CalcChecksum | client/Client.py:13-21 | the receiver's copy of the word loop computes the same checksum function as the sender's |
| Client.VerifyChecksum | client/Client.py:24-26 | the check passes exactly when the received checksum equals the checksum of the payload |
| Client.EmptySlots | client/Client.py:41 | the buffer starts as 4 empty slots |
| Client.Deliver | client/Client.py:44-76 | a closing notice ends the loop and touches no slot; short data crashes; a frame whose checksum fails gets NACK:seq and changes no slot; a verified frame numbered 4 or more crashes the loop; a verified frame numbered below 4 gets ACK:seq, fills its slot only if it was empty and changes no other slot; filled slots never change |
| Client.RedeliveryIsIdempotent | client/Client.py:71-73 | delivering the same message twice leaves the slots and the reply as one delivery does |
| Client.Receive | client/Client.py:43-76 | the receive loop keeps the buffer at 4 slots |
| Client.ReceiveKeepsFilledSlots | client/Client.py:71-72 | a slot, once filled, keeps its payload for the rest of the receive loop |
| Client.TerminalOf | client/Client.py:45-61 | an empty read is exactly a closed connection and `EOF` exactly the end of file; each other notice is recognised only by its prefix |
| Client.NotTerminal | client/Client.py:45-61 | a message goes on to header decoding exactly when it is not empty, not `EOF` and starts with none of the three notices |
| Client.ReceiveStep | client/Client.py:43-76 | one pass of the receive loop either stops at a notice or a crash with no reply, or replies and continues with the updated slots |
| Bytes.JoinLayout | client/Client.py:80 | a join is as long as all its parts together, and part j occupies exactly the bytes after those of parts 0 .. j - 1 |
| Client.Assembled | client/Client.py:79-80 | a file is produced exactly when every slot is filled; it is then as long as all slots together, and slot j's payload sits right after the payloads of slots 0 .. j - 1 |
| Client.Request | client/Client.py:37-85 | "exit" and only "exit" ends the program, with no reply; otherwise the replies are those of the receive loop, a crash aborts, the file `received_<name>` is saved with the assembled contents exactly when the loop did not crash and every slot is filled, and the request is incomplete exactly when the loop did not crash and some slot is empty |
| Client.Receiver.constructor | client/Client.py:41 | a new buffer is 4 empty slots |
| Client.Receiver.Reset | client/Client.py:41 | every new request starts from 4 fresh empty slots |
| Client.Receiver.Accept | client/Client.py:44-76 | one pass of the loop updates the slot array and reacts exactly as the delivery specification says |
| Client.Receiver.Reassemble | client/Client.py:79-80 | the all-filled test and the join give the assembled file of the current slots |
| Client.Receiver.Listen | client/Client.py:43-76 | the receive loop over the slot array gives exactly the replies, the stop reason and the slots of the receive-loop specification |
| Client.Receiver.RequestFile | client/Client.py:37-85 | one file request produces exactly the replies and the outcome (exit, saved file, incomplete, crash) of the request specification; "exit" leaves the slot array alone, and any other name leaves a fresh 4-slot array holding what the receive loop stored |
| EndToEnd.DataNeverTerminal | client/Client.py:48-61 | a data message with a sequence number below 256 is never taken for a closing notice |
| EndToEnd.NoticesEndReception | client/Client.py:48-61 | "File not found", "File sent successfully", "Transmission failed" and "EOF" each end the receive loop with their own reason |
| EndToEnd.IntactFrameAcked | client/Client.py:69-73 | an intact fragment is acknowledged with its own number and fills its slot only if the slot was empty |
| EndToEnd.CorruptedFrameNacked | client/Client.py:74-76 | a fragment with any one payload byte changed in transit is refused with NACK for its number, and no slot changes |
| EndToEnd.HeaderCorruptionUndetected | client/Client.py:63-73 | fragment 0 with its sequence number's low byte turned into 1 is acknowledged as ACK:1 and its payload is stored in slot 1 |
| EndToEnd.TooSmallNoticeNotRecognised | client/Client.py:48-76 | the sender's too-small notice is not a closing notice; it decodes as data message 18025 and is refused or crashes the loop, filling no slot |
| EndToEnd.WelcomeNotRecognised | client/Client.py:43-76 | the welcome line, read on its own, is no closing notice; it decodes as data message 22373 with checksum field 0x6C63 and is refused with NACK:22373, changing no slot |
| EndToEnd.AllAckedFirstTime | Server.py:73-88 | when every fragment is acknowledged at its first sending, each is written exactly once, in order, and the transfer completes |
| EndToEnd.FillNext | client/Client.py:69-73 | fragment k of a file, read intact, fills slot k and is acknowledged with ACK:k |
| EndToEnd.ReceiveIntactFrames | client/Client.py:43-76 | the fragments read intact and in order, then "File sent successfully", are each acknowledged and leave every slot filled |
| EndToEnd.LosslessServing | Server.py:49-100 | a request for an existing file, answered by ACK:0 to ACK:3 and then a closed connection, makes the request loop write each fragment once, then "File sent successfully" |
| EndToEnd.FilledAssemblesFile | client/Client.py:79-80 | once all four fragments have arrived, the assembled file is the original bytes |
| EndToEnd.LosslessReceiving | client/Client.py:41-85 | the receiver, given a file's fragments and the success notice, replies ACK:0 to ACK:3 and saves the original bytes as received_<name> |
| EndToEnd.LosslessRoundTrip | Server.py:49-100 | for one request after the welcome line, on a channel that loses and corrupts nothing: what the request loop writes makes the receiver reply with exactly the replies the request loop read, ACK:0 to ACK:3, and save exactly the original file |

## Left out

- Sockets (`connect`, `bind`, `listen`, `accept`, `send`, `recv`, `settimeout`) and `main` on both sides. Inbound messages are event sequences. Outbound messages are the `Outbound` list a run writes.
- One thread per connection on the sender. No state is shared between threads, so each session is modelled on its own.
- Real time. A timeout is an input event, and the 5-second timeout value plays no part.
- The file system:
  - `os.path.exists` and `os.path.getsize` become membership in, and the size of, the map of files.
  - Reading a file becomes the map's value.
  - Writing `received_<name>` becomes the `Saved` outcome, carrying the path and the contents.
- Console I/O (`input`, `print`). The receiver's outer loop repeats `Client.Request` for each name typed and is not modelled beyond one request.
- Buffer sizes and message boundaries (`Buffer_Size`, 1024-byte reads). Each read is assumed to return exactly one message the peer wrote, so a fragment longer than 1020 bytes, split or merged reads, and a welcome line merged into the first fragment are not modelled.
- Text decoding and `strip`. Names and replies reach the sender already decoded and stripped. Control texts are ASCII, so their UTF-8 encoding is modelled as one byte per character.
- Case folding of the "exit" test covers ASCII letters only. Python's `str.lower` also folds non-ASCII letters, and the model does not capture that.
- A connection that closes while an acknowledgment is awaited ends the session in the model as `Disconnected`. Python reads an empty reply from a closed peer, resends with `retry` unchanged, and keeps doing so until a send raises and the generic handler ends the session. The extra resends are not modelled.
- The exception handlers at Server.py:102-112 only log and end the session. A timeout while awaiting a file name ends the session as `RequestTimedOut`; other exceptions are not modelled.
- A timeout while awaiting a file name can happen in Python only after a first transfer has called `settimeout` (Server.py:82); before that, the read at Server.py:50 blocks. The model accepts a `Timeout` event at any read of a file name, so it also allows sessions that end as `RequestTimedOut` before any transfer.
- The two peers are not composed over one connection. The round-trip lemma covers one request read after the welcome line. How the receiver's `NACK:22373` for the welcome line shifts the acknowledgments of a whole session is not modelled beyond the sender's resend of fragment 0.
- The root-level `Client.py` is not part of this model. It only connects, prints a greeting and closes.
