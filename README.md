# KRImpl link layer in Dafny

A model of the serial link-layer stack of KRImpl, with proofs about it.
The stack has five parts:

- **Hamming(7,4) codec** (`Hamming`, hamming.py). A nibble becomes a 7-bit
  codeword.
- **Marker-unit byte codec** (`Hamming`, `UnitStream`). Each byte travels as
  two 3-byte units `FF cw FE`, upper nibble first. `HammingCodec` decodes a
  whole buffer. `read_frame` decodes from a port, one byte per call.
- **Frame codec** (`FrameCodec`, frame.py). The layout is
  `FF RECEIVER SENDER TYPE LENGTH PAYLOAD FF`, and the payload is not escaped.
- **GUI link layer** (`AppGui`, app_gui.py). It has its own copies of the
  Hamming functions and the transport, plus `send_ack` and `send_message`.
  Its receive loop `read_loop` reassembles frames from decoded bytes,
  filters them by address, and answers I frames with an ACK.
- **Connection state machine** (`Connections`, connection.py). A class
  updated in place: LINK/UPLINK/ACK handling, connect, disconnect, retry
  and idle timeouts.

The console scripts are modelled as well:

- `Sender` (sender.py): one message sent as an I frame from 0x02 to 0x01.
- `Receiver` (receiver.py): the line buffer of its `main` loop.

Each keeps its own copy of the codec functions.

The serial port is the class `SerialPort.Port`. Its input bytes are fixed
in advance and read through a cursor. A read at the end comes back empty,
as a read that times out on an idle line does. Everything written is
appended to a log. The methods that touch the port are proved against pure
specification functions of the input and the cursor:

- `UnitStream.NextByte` and `UnitStream.Reads` specify reading;
- `Hamming.EncodeStream` specifies writing;
- `AppGui.Feed` and `AppGui.AckStream` specify the frame assembler;
- `Receiver.Lines` specifies the line buffer.

Time is a parameter `now` in integer milliseconds: the 1.0 s retry timeout
is 1000 and the 300 s idle timeout is 300000.

Some behaviours of the code are easy to misread. The model keeps each one
as the code has it:

- **The decoder does not correct errors.** The docstring of `decode_7bit`
  promises error correction (hamming.py:16), and receiver.py:42 comments
  the flip as fixing the error. But the syndrome is computed and the bit
  flipped only after the four data bits have been read into locals, so
  the flip never reaches the result (hamming.py:31-36).
  - `Hamming.SyndromeLocatesSingleError` proves the syndrome and the flip
    would be right.
  - `Hamming.SingleErrorOutcome` proves a single flipped data bit still
    decodes wrongly.
- **LINK is accepted in every state** (connection.py:41-52), including
  CONNECTING and CONNECTED, and is always answered with an ACK.
- **`check_timeout` also acts in CONNECTED** (connection.py:87-101). A
  silent peer exhausts the retry counter there, so an established
  connection drops after at most four expired checks, long before the idle
  timeout. Four is MaxRetries + 1, counted from a reset counter. Only
  `connect` and `disconnect` reset it (connection.py:75, 84), so fewer
  checks remain when LINK retries, or an earlier give-up, left the counter
  up.
- **The idle timeout changes no state.** `is_connection_timeout`
  (connection.py:103-107) only reports it.

## Model

| member | source | states |
|---|---|---|
| Hamming.Encode4 | hamming.py:3-12 | The codeword is below 0x80 and has syndrome 0. It carries data bits 0..3 at positions 2, 4, 5, 6, and decodes back to the low nibble. |
| Hamming.ErrorPos | hamming.py:26-31 | The syndrome `s1 + 2*s2 + 4*s3` is a position 0..7. |
| Hamming.Corrected | hamming.py:31-33 | The value the in-place flip leaves in `encoded`: unchanged exactly when the syndrome is 0, otherwise the byte with bit `error_pos - 1` inverted. |
| Hamming.Decode7 | hamming.py:15-36 | The result is a nibble, read from the data-bit positions of the byte as received. |
| Hamming.EncodeUsesLowNibble | hamming.py:5-12 | Encoding depends on the low four bits only. |
| Hamming.EncodeInjective | hamming.py:3-12 | Distinct nibbles get distinct codewords. |
| Hamming.SyndromeLocatesSingleError | hamming.py:26-33 | After one bit flip in a codeword, the syndrome is that bit's 1-based position, and the flip in line 33 restores the codeword. |
| Hamming.DecodeIgnoresParityBits | hamming.py:15-36 | A flip of a parity bit or of bit 7 does not change the decoded nibble. |
| Hamming.DecodeFollowsDataBits | hamming.py:15-36 | A flip of a data bit changes the decoded nibble, even though it also changes the syndrome. |
| Hamming.SingleErrorOutcome | hamming.py:15-36 | With one flipped bit, a codeword decodes to the nibble sent if and only if the flip hit a parity bit. |
| Hamming.EncodeByte | hamming.py:39-50 | Six bytes `FF cw FE FF cw FE` hold the codewords of the upper and lower nibble, and they decode back to the byte. |
| Hamming.EncodeStream | hamming.py:39-50 | Encoding a sequence of bytes gives six wire bytes per byte. |
| Hamming.EncodeStreamAppend | hamming.py:39-50 | Encoding one more byte appends its six bytes. |
| Hamming.EncodeStreamConcat | hamming.py:39-50 | The encoding of a concatenation is the concatenation of the encodings. |
| Hamming.EncodeStreamAt | hamming.py:39-50 | Stream byte k is byte k mod 6 of the encoding of input byte k div 6. |
| Hamming.MarkersOnlyAtUnitEdges | hamming.py:47-50 | In an encoded stream, 0xFF occurs exactly at positions 0 mod 3 and 0xFE exactly at positions 2 mod 3. |
| Hamming.UnitNibbles | hamming.py:55-63 | The scan collects at most one nibble per three input bytes. |
| Hamming.JoinNibbles | hamming.py:65-70 | Pairing gives half as many bytes as nibbles, rounded down. |
| Hamming.DecodeStream | hamming.py:52-72 | The two loops compute the scan followed by the pairing, and the output is at most a sixth of the input. |
| Hamming.DecodedLengthBound | hamming.py:52-72 | Each decoded byte takes at least six input bytes. |
| Hamming.UnitNibblesAt | hamming.py:57-63 | One step of the scan: a well-formed unit yields its nibble and skips three bytes; any other byte is skipped alone. |
| Hamming.JoinNibblesAt | hamming.py:67-70 | One step of the pairing loop; an odd trailing nibble is dropped. |
| Hamming.UnitNibblesOfEncodedByte | hamming.py:39-63 | The units of an encoded byte scan to its two nibbles. |
| Hamming.UnitNibblesSkipsNoise | hamming.py:57-63 | Leading bytes that are not 0xFF are skipped. |
| Hamming.DecodeStreamRoundTrip | hamming.py:39-72 | Decoding the concatenated encodings of `bs` gives `bs`. |
| Hamming.JoinNibblesCons | hamming.py:67-70 | Two leading nibbles join to one byte, upper first. |
| Hamming.SplitJoin | hamming.py:41-42 | The upper and lower nibble of a byte join back to the byte. |
| FrameCodec.ToBytes | frame.py:28-37 | Serialisation succeeds iff every field fits a byte; otherwise it fails with a range error. The output is `FF r s t len payload FF` with the length of the payload. |
| FrameCodec.AsByte | frame.py:30-36 | A field in 0..255 keeps its value as a byte. |
| FrameCodec.FromBytes | frame.py:39-55 | The parser checks length, then delimiters, then the length field, and fails on each with its own error. It succeeds iff the input is well formed, and then returns the fields and the payload between header and stop byte. |
| FrameCodec.ParseOfSerialise | frame.py:28-55 | Parsing a serialised frame gives the frame back. |
| FrameCodec.SerialiseOfParse | frame.py:28-55 | Serialising a parsed frame gives back the exact bytes parsed. |
| FrameCodec.TruncatedFrameRejected | frame.py:41-52 | A proper prefix of a well-formed frame, six bytes or longer, is rejected. |
| Connections.Connection.constructor | connection.py:13-22 | A new connection is DISCONNECTED, with no activity yet and no retries. |
| Connections.Connection.CreateFrame | connection.py:24-34 | The frame goes from the local to the remote address; a LINK frame carries the local nickname in place of the data. |
| Connections.Connection.HandleFrame | connection.py:36-67 | A frame not from the peer, or not to this node, changes nothing. Otherwise the activity time is set and the result depends on the type. LINK: connect, learn the nickname, answer ACK with our nickname, in any state. UPLINK: disconnect and answer an empty ACK. ACK: completes CONNECTING or DISCONNECTING, with no answer. I: answered only when CONNECTED. The retry counter is untouched. |
| Connections.Connection.Connect | connection.py:69-76 | Only from DISCONNECTED: go to CONNECTING, reset the retries, record the activity, return the LINK frame. In any other state it fails and changes nothing. |
| Connections.Connection.Disconnect | connection.py:78-85 | Only from CONNECTED: go to DISCONNECTING, reset the retries, record the activity, return the UPLINK frame. In any other state it fails and changes nothing. |
| Connections.Connection.CheckTimeout | connection.py:87-101 | Without activity, or before the timeout, nothing changes. Once retries are exhausted: DISCONNECTED with no frame. Otherwise the counter grows by one and the timestamp is renewed; LINK is re-sent in CONNECTING, UPLINK in DISCONNECTING, nothing in other states. The counter stays within 0..3. |
| Connections.Connection.IsConnectionTimeout | connection.py:103-107 | True iff CONNECTED and idle for more than 300 s. |
| Connections.Connection.IsConnected | connection.py:109-111 | True iff the state is CONNECTED. |
| Connections.HandshakeScenario | connection.py:36-76 | A LINK from A and the ACK from B leave both connected, each knowing the other's nickname. |
| Connections.TimeoutsEndInDisconnected | connection.py:87-101 | From any state and any retry count, four expired timeout checks with no traffic in between end in DISCONNECTED. |
| Connections.SpentRetriesSurviveInboundLink | connection.py:36-101 | A connection gives up after three repeated LINKs and is then connected by the peer's LINK. It keeps its spent counter and drops at the next expired check. |
| UnitStream.ReadUnits | app_gui.py:51-64 | The rest of one `read_frame` call: the cursor only advances, and an empty result means the input is used up. |
| UnitStream.NextByte | app_gui.py:51-64 | One `read_frame` call returns nothing only once it has consumed the whole input, and otherwise advances the cursor. |
| UnitStream.NextByteOfEncodedByte | app_gui.py:25-64 | The six bytes of an encoded byte at the cursor are read back as that byte. |
| UnitStream.ReadUnitsSkipsNoise | app_gui.py:53-57 | Bytes other than 0xFF at the cursor are skipped. |
| UnitStream.StrayMarkerBeforeByte | app_gui.py:51-64 | One stray 0xFF before an encoded byte: `decode_stream` still recovers the byte, but `read_frame` loses it and returns nothing. |
| UnitStream.Reads | app_gui.py:201-203 | n successive `read_frame` calls yield n outcomes, and the cursor stays within the input. |
| UnitStream.ReadsOfEncodedStream | app_gui.py:25-64 | Bytes sent with `send_frame` are read back one per call, in order, and the cursor ends after them. |
| UnitStream.Present | app_gui.py:203-205 | The bytes of the calls that returned one are no more than the calls. |
| UnitStream.PresentAppend | app_gui.py:203-205 | One more call appends its byte, if any. |
| UnitStream.ReadsSnoc | app_gui.py:201-203 | n+1 calls are n calls followed by one more from where they left the cursor. |
| UnitStream.PresentOfSuccesses | app_gui.py:203-205 | Calls that all return a byte yield exactly those bytes. |
| UnitStream.SentStreamReadBack | app_gui.py:25-64 | On a quiet line, as many calls as bytes sent read all of them back and consume the whole stream. |
| UnitStream.ReadsStep | app_gui.py:201-205 | One more call advances the cursor as `read_frame` does and appends its byte, if any. |
| AppGui.HammingEncode4bit | app_gui.py:15-23 | The copy gives the same codeword as `HammingCodec.encode_4bit`, below 0x80. |
| AppGui.HammingDecode7bit | app_gui.py:35-49 | The copy gives the same nibble as `HammingCodec.decode_7bit`. |
| AppGui.SendFrame | app_gui.py:25-33 | It writes exactly `encode_byte` of every byte, in order, to the port. |
| AppGui.ReadFrame | app_gui.py:51-64 | It returns the byte and moves the cursor as `NextByte` specifies. |
| AppGui.SendAck | app_gui.py:66-68 | It writes the encoded ACK frame with an empty payload. It succeeds iff both addresses fit a byte, and the frame sent parses back. On failure nothing is written. |
| AppGui.SendMessage | app_gui.py:182-196 | An empty message sends nothing. Otherwise an I frame to the broadcast address carries the message plus a line feed, and is written encoded. It fails, writing nothing, iff the address or the length does not fit. |
| AppGui.Step | app_gui.py:204-223 | Outside a frame only 0xFF matters, and it opens a fresh buffer. Inside, every byte is kept. The frame closes, and the buffer is handed on, exactly at a 0xFF that brings the buffer to six bytes or more. |
| AppGui.Feed | app_gui.py:198-223 | Feeding bytes hands on at most one buffer per byte. |
| AppGui.FeedSnoc | app_gui.py:198-223 | Feeding one more byte is one more step. |
| AppGui.FeedKeepsShape | app_gui.py:204-223 | For any input, an open buffer starts with 0xFF and has no 0xFF past the header. Every buffer handed on is at least six bytes long, delimited by 0xFF, with no other 0xFF past the header. |
| AppGui.CollectStep | app_gui.py:209-211 | A byte that does not close the frame is appended and keeps it open. |
| AppGui.CloseStep | app_gui.py:209-223 | A 0xFF that brings the buffer to six or more bytes closes the frame and hands the buffer on. |
| AppGui.PrefixCollected | app_gui.py:204-211 | A prefix starting with 0xFF, with no 0xFF past the header, is collected into an open buffer and nothing is handed on. |
| AppGui.FrameCollected | app_gui.py:204-223 | Such bytes ending in a 0xFF at position five or later are handed on as exactly one buffer. |
| AppGui.CleanFrameDelivered | app_gui.py:198-223 | A well-formed frame with no 0xFF in its payload is handed to `from_bytes` whole and alone. |
| AppGui.EarlyClose | app_gui.py:209-223 | A 0xFF in the payload closes the frame early, and `from_bytes` rejects the cut buffer, so the frame is lost. |
| AppGui.AckFor | app_gui.py:212-222 | An ACK is sent, from the frame's receiver back to its sender, exactly for a well-formed I frame addressed to this node or to broadcast. |
| AppGui.AckBytes | app_gui.py:212-222 | The bytes `read_loop` writes for one buffer through `send_ack` and `send_frame`. They are empty exactly when no ACK is due. Otherwise they are 36 wire bytes, and they decode and parse back to the ACK frame. |
| AppGui.AckStream | app_gui.py:198-223 | The loop's writes over a sequence of buffers: whole ACKs of 36 wire bytes, at most one per buffer. |
| AppGui.AckStreamStep | app_gui.py:212-222 | Handing on one more buffer appends its answer. |
| AppGui.AckStreamSnoc | app_gui.py:212-222 | The answers to a sequence of buffers are the answers to each, in order. |
| AppGui.AckBytesOfParse | app_gui.py:212-222 | The answer to a buffer follows the branches after `from_bytes`: nothing on a parse error or for another address; the encoded ACK for an I frame. |
| AppGui.TakeByte | app_gui.py:204-223 | The assembler takes one step, and the port receives exactly that step's answer. |
| AppGui.ReadLoop | app_gui.py:198-226 | After `rounds` turns, the cursor is where that many `read_frame` calls leave it. The port holds, in order, the ACKs for the buffers the assembler hands on from the bytes those calls returned. |
| AppGui.Round | app_gui.py:201-226 | One turn keeps the cursor, the bytes decoded, the assembler and the written log in step with the specification. |
| AppGui.RoundKeeps | app_gui.py:201-223 | One turn of the specification: one more read, and, if it returns a byte, one more step and its answer. |
| AppGui.SerialisedFrameIsClean | app_gui.py:209-213 | A serialised frame with no 0xFF in its payload is well formed, with no 0xFF between header and stop byte. |
| AppGui.AckForFrame | app_gui.py:212-220 | An I frame for this node or for broadcast gets the ACK from its receiver to its sender. |
| AppGui.SentFrameDelivered | app_gui.py:198-223 | End to end: a frame sent on a quiet line with no 0xFF in its payload is assembled and handed on alone. If it is an I frame for this node or for broadcast, exactly its ACK is written back. |
| Sender.HammingEncode4bit | sender.py:11-19 | The copy gives the same codeword as `HammingCodec.encode_4bit`. |
| Sender.SendFrame | sender.py:21-31 | It writes exactly `encode_byte` of every byte, in order. |
| Sender.SendMessage | sender.py:79-80 | An I frame from 0x02 to 0x01 carries the message and parses back. It fails with a range error, writing nothing, iff the message is longer than 255 bytes. |
| Receiver.HammingDecode7bit | receiver.py:26-44 | The copy gives the same nibble as `HammingCodec.decode_7bit`. |
| Receiver.ReadFrame | receiver.py:46-63 | It returns the byte and moves the cursor as `NextByte` specifies. |
| Receiver.Lines | receiver.py:86-99 | The emitted lines followed by the buffer are the bytes received. Each line ends at its first line end (`\n` or `\r`), and the buffer holds none. |
| Receiver.LinesStep | receiver.py:93-99 | One more byte keeps that split valid. |
| Receiver.LinesSnoc | receiver.py:93-99 | Only a line end emits a line: the buffer plus that byte. Any other byte joins the buffer. |
| Receiver.LinePrefixBuffered | receiver.py:93-99 | While a line is incomplete, its bytes wait in the buffer. |
| Receiver.LinesAfterLine | receiver.py:93-99 | After a clean boundary, a full line is emitted whole. |
| Receiver.LinesOfFlatten | receiver.py:86-99 | Bytes made of whole lines come out as exactly those lines, with an empty buffer. |
| Receiver.ReceiveLoop | receiver.py:86-99 | After `rounds` turns, the cursor is where that many `read_frame` calls leave it. The lines emitted and the buffer are the split of the bytes those calls returned. |

## Left out

- The window, widgets, logging, printing and `__repr__`/`__str__` are not
  modelled. UTF-8 decoding and `strip` of received text, and port listing
  and selection (`list_serial_ports`, the interactive parts of each
  `main`), are not modelled either: none of them change what goes on the
  wire. A message is its UTF-8 bytes.
- config.py is not part of this model: it only stores port settings.
- Serial-port exceptions and the `except` around a read (app_gui.py:224-225)
  are not modelled. The port neither fails nor closes.
- `time.sleep` in `send_frame` and `read_loop` is not modelled: it does not
  change the bytes.
- Threads are not modelled. `read_loop` and the timeout checks run in one
  thread here.
- AppGui.ReadLoop: the source loops while `running`. The model runs a given
  number of turns, because the loop stops only from outside.
- Receiver.ReceiveLoop: the source loops until interrupted. The model runs a
  given number of turns, for the same reason.
- AppGui.SendMessage: the checks that the port is open and the window is
  running (app_gui.py:184) are not modelled; the port is always open here.
- AppGui.SendMessage: the error from a frame that cannot be serialised is
  returned rather than logged.
- Sender.SendMessage: models one turn of `main`. The `exit` command and the
  prompt loop are left out. An error that ends the program is returned.
- Connections.Connection.HandleFrame: the nickname is stored as raw bytes.
  The fallback to the hex address when they are not valid UTF-8 is not
  modelled.
- Connections.Connection.constructor: takes both nicknames. The default,
  the address printed in hex, is left to the caller.
- Time is an integer count of milliseconds, not float seconds.
- `Frame.FRAME_TYPES` descriptions are text only. RET (0x05) is declared
  but never used by the code.
