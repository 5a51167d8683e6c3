# Stream formats and protocols: a verified model

This project models the parts of the repository in which bytes, packets and
lines are taken apart and put together again, and proves what they promise for
all inputs and all runs:

- **libmad's bit reader, CRC, frame synchroniser and fixed-point division**
  (`src/A-V/libmad`). The bit cursor is a class with the original's `byte`,
  `cache` and `left` fields and is proved to deliver consecutive pieces of the
  bit string under it. The table-driven CRC, with its accumulator whose upper
  bits are never cleared, is proved equal to the bit-serial register of
  x^16+x^15+x^2+1 (section 2.4.3.1 of ISO/IEC 11172-3), and the register's
  detecting power is proved as well. The header scanner is proved to lose no
  sync word, to make progress and to stop, and to decode a clean stream frame by
  frame, each with its own header and rate. The long division is proved to give
  the rounded quotient exactly when no intermediate remainder overflows.
- **RTSP and interleaved RTP/RTCP on one TCP connection**
  (`docs/RTSP/abstractRTSP`). The receiving state machine, fed whatever pieces
  the socket yields, is proved to deliver exactly what was framed (section
  10.12 of RFC 2326), and to deliver all of it if every packet fits its reader.
  The server's incremental search for requests is proved equal to cutting up
  the stream as a whole, and what the client prints is proved to be what the
  server reads.
- **RTCP** (same directory). Sequence numbers are unwrapped exactly within half
  a cycle (appendix A.1 of RFC 3550); the reports a session builds from its
  tables, with whatever an earlier one left in the buffer, are proved to be
  understood by the receiving side exactly when each is on fewer than 32 sources
  and they fit. What loss figures say of the packets really sent is proved: the
  total is one short, and the fraction is exact from the second report on but not
  in the first. The reports that go out are proved to be spaced apart under
  reconsideration and reverse reconsideration (section 6.3 and appendix A.7 of
  RFC 3550).
- **cpplint's bracket matcher and preprocessor nesting**
  (`config/scripts/check/cpplint.py`). The two bracket scanners are proved
  mutually inverse over any number of lines; the nesting stack, kept as mutable
  objects with deep copies, is proved to follow exactly the first branches of
  conditionals, and to be left by whole classes and namespaces as it was.
- **The HTTP live streaming playlist**, with the duration in single precision:
  the text fits its buffer, and the end of the segments is worked out exactly for
  every duration below 2^31 seconds: they tile the file up to 2^24 seconds and
  beyond that exactly under a condition.

Code that changes things in place is modelled by classes, arrays and loops whose
contracts tie the new state to specification functions; the properties are
lemmas about those functions.

## Files

| file | contents |
|---|---|
| `Wrappers.dfy`, `Arith.dfy`, `Octets.dfy`, `Decimals.dfy`, `Grid.dfy`, `Floats.dfy` | options; arithmetic without nonlinear search; bytes and words in network order; decimal digits; rounding to a grid; rounding to single precision |
| `BitReader.dfy`, `Crc.dfy` | bit cursor; shift registers in general, and the CRC |
| `FrameHeader.dfy`, `FrameLayout.dfy`, `FrameSync.dfy` | the frame header and free-format rates; the header as the standard lays it out; the scanner |
| `FixedDiv.dfy` | fixed-point long division |
| `Interleave.dfy`, `RequestScan.dfy` | byte-at-a-time framing; finding requests in chunks |
| `RequestLine.dfy`, `RequestParse.dfy`, `RequestRoundTrip.dfy`, `RequestLimits.dfy` | percent-decoding in place; the request parser; printing and reading back; what is accepted |
| `Reception.dfy`, `RtcpMembers.dfy`, `RtcpPacket.dfy`, `RtcpReport.dfy`, `RtcpLoss.dfy`, `RtcpTimer.dfy` | reception table; members; packets; the reporting session; what its loss figures mean; its timer and whole runs |
| `Brackets.dfy`, `Preproc.dfy`, `Nesting.dfy`, `NestingLaws.dfy` | brackets; conditionals for any effect of a line; the nesting state as objects; what lines do to it |
| `Playlist.dfy`, `PlaylistRead.dfy` | the playlist loop, and what rounding does to it; reading the text back |

Some methods carry ghost parameters of function type (`step`, `effect`,
`packet`, `cut`, ...) together with a predicate saying which specification
function they stand for. They keep large definitions out of proofs that do not
need them; the callers pass the function itself.

## Model

| member | source | states |
|---|---|---|
| BitReader.BitPtr.constructor | src/A-V/libmad/bit.c:88-93 | a cursor starts on the first bit of a byte |
| BitReader.BitPtr.Init | src/A-V/libmad/bit.c:88-93 | initialising again puts the cursor at a byte boundary of any buffer |
| BitReader.BitPtr.Length | src/A-V/libmad/bit.c:99-104 | the length between two cursors is the difference of their positions, modulo 2^32 |
| BitReader.BitPtr.NextByte | src/A-V/libmad/bit.c:110-113 | the first byte of which nothing has been consumed, also when no bit of the current byte is left |
| BitReader.BitPtr.Skip | src/A-V/libmad/bit.c:119-131 | a skip moves the position by exactly the length, keeping the cache in step with the current byte |
| BitReader.BitPtr.Read | src/A-V/libmad/bit.c:137-175 | up to 32 bits are delivered as their big-endian value and the position moves by exactly that many |
| BitReader.BitPtr.ReadAcross | src/A-V/libmad/bit.c:152-174 | the same when the read uses up the cached byte and goes on into the next ones |
| BitReader.BitPtr.Run | src/A-V/libmad/bit.c:119-175 | any run of skips of any length and reads of up to 32 bits that stays within the buffer, to its last bit, yields consecutive pieces of the bit string and ends at the sum of the lengths; only a read of nothing at the very end is excluded, where the code looks at a byte beyond the buffer |
| BitReader.WholeBytes | src/A-V/libmad/bit.c:160-165 | the loop over whole bytes appends each to the value read so far |
| BitReader.ReadsCompose | src/A-V/libmad/bit.c:137-175 | reading a bits and then b bits is reading a+b bits |
| BitReader.DigitsOfValue | src/A-V/libmad/bit.c:137-175 | the value of bits, written out again, gives the bits back |
| BitReader.PartOfByte | src/A-V/libmad/bit.c:141-150 | masking and shifting the cached byte gives the next bits of the string |
| Crc.TableCorrect | src/A-V/libmad/bit.c:44-80 | every entry of the table is what eight clocks of the polynomial make of its index |
| Crc.TableClocks | src/A-V/libmad/bit.c:207-219 | shifting by a byte and looking the mixed byte up equals eight clocks, for any register and any byte |
| Crc.TableStepCorrect | src/A-V/libmad/bit.c:207-219 | the wide accumulator, upper bits uncleared, looks up the entry the 16-bit register would |
| Crc.WordClocks | src/A-V/libmad/bit.c:202-211 | four lookups over one 32-bit read equal 32 clocks |
| Crc.TailStepCorrect | src/A-V/libmad/bit.c:226-234 | one step of the bit loop equals one clock |
| Crc.ManyWords | src/A-V/libmad/bit.c:202-211 | the word loop leaves fewer than 32 bits and the register of the bits consumed |
| Crc.FewBytes | src/A-V/libmad/bit.c:213-224 | the fall-through switch consumes exactly the remaining whole bytes |
| Crc.LastBits | src/A-V/libmad/bit.c:226-234 | the bit loop consumes the rest |
| Crc.MadBitCrc | src/A-V/libmad/bit.c:197-237 | for every position, length and initial value the result is the bit-serial CRC of those bits |
| Crc.ClockInjective | src/A-V/libmad/bit.c:226-234 | the register can be run backwards, over states and over bits |
| Crc.Residue | src/A-V/libmad/bit.c:193-237 | clocking in the check word after a message clears the register |
| Crc.DetectsBitError | src/A-V/libmad/bit.c:193-237 | a message and the same message with one bit flipped never share a check word |
| Crc.StepAdditive | src/A-V/libmad/bit.c:226-234 | a clock of mixed registers on mixed bits is the mix of the two clocks |
| Crc.CrcAdditive | src/A-V/libmad/bit.c:197-237 | the check word of mixed messages from mixed initial values is the mix of their check words |
| Crc.DetectsBurst | src/A-V/libmad/bit.c:193-237 | two messages that differ, but only within sixteen consecutive bits, never share a check word |
| Register.RunSplit | src/A-V/libmad/bit.c:207-219 | a register's old contents only move up while the rest is what the cleared register makes of the mixed input |
| Register.RunXor | src/A-V/libmad/bit.c:197-237 | if each clock of a register respects mixing, so does a whole run; `Crc.StepAdditive` shows that the CRC is such a register |
| Register.RunWord | src/A-V/libmad/bit.c:202-211 | four byte steps of any simulating wide step are 32 clocks |
| Register.RunDetects | src/A-V/libmad/bit.c:226-234 | changing one bit of the input of an invertible register changes its final state |
| FrameHeader.InterpretPlausible | src/A-V/libmad/frame.c:119-232 | a header that decodes has a known layer, a usable sampling rate and a tabulated bitrate or none |
| FrameHeader.FrameLengthAtLeastGuard | src/A-V/libmad/frame.c:388-400 | no frame length at 8 kbit/s or more is below the guard of 8 bytes |
| FrameHeader.FreeRateExact | src/A-V/libmad/frame.c:248-293 | Layers II and III: from the true distance at k kbit/s exactly k is recovered and the frame length comes out the same |
| FrameHeader.LayerOneRateExactIff | src/A-V/libmad/frame.c:268-271 | Layer I: the rate is recovered if and only if the remainder of 12000k by the sampling rate lies in the last 12000 |
| FrameHeader.LayerOneRateLost | src/A-V/libmad/frame.c:268-271 | Layer I at 48 kHz and 8 kbit/s is taken for 12 kbit/s |
| FrameLayout.HeaderWritten | src/A-V/libmad/frame.c:119-232 | four bytes put together from codes as the standard lays them out, with or without a check word, decode to exactly these codes, or to the error of the first that is reserved |
| FrameLayout.BitrateOne | src/A-V/libmad/frame.c:38-41 | Layer I rates go up by 32 kbit/s |
| FrameLayout.BitrateThree | src/A-V/libmad/frame.c:44-45 | Layer III rates go up in four steps to the octave from 32 kbit/s |
| FrameLayout.BitrateTwo | src/A-V/libmad/frame.c:42-43 | Layer II rates are those of Layer III with one step left out |
| FrameLayout.BitrateLow | src/A-V/libmad/frame.c:50-51 | at lower sampling frequencies the rates of Layers II and III go up by 8 and then by 16 kbit/s |
| FrameLayout.BitrateLowOne | src/A-V/libmad/frame.c:48-49 | and those of Layer I by 8, 16 and then 32 |
| FrameLayout.SamplerateHalves | src/A-V/libmad/frame.c:178-186 | each extension halves the three sampling rates |
| FrameLayout.LengthOfSamples | src/A-V/libmad/frame.c:388-400 | without its padding a frame is the longest whole number of slots that is sent while its samples last: 384 in Layer I, 576 in Layer III at lower sampling frequencies, 1152 otherwise |
| FrameSync.DecodeHeader | src/A-V/libmad/frame.c:119-232 | reading a header through the bit cursor yields the header, or the error, that its bits spell |
| FrameSync.DecodeFields | src/A-V/libmad/frame.c:119-232 | the same in terms of named fields, each read once and in order |
| FrameSync.MadStream.SetBuffer | src/A-V/libmad/stream.c:79-91 | a new buffer is taken to start at a frame |
| FrameSync.MadStream.StreamSync | src/A-V/libmad/stream.c:106-123 | finds the first sync word that has the guard after it, and says so if there is none |
| FrameSync.MadStream.FreeBitrate | src/A-V/libmad/frame.c:238-294 | finds the rate the first usable following header implies, or fails if there is none, and leaves the cursor alone |
| FrameSync.FreeFormatRecovered | src/A-V/libmad/frame.c:238-294 | if the next header of the same layer and sampling rate, too near ones aside, is one true frame away, the true rate is found and the frame confirmed |
| FrameSync.FirstCandidateAt | src/A-V/libmad/frame.c:252-282 | the look-ahead stops at the first sync word that has a candidate rate |
| FrameSync.MadStream.Attempt | src/A-V/libmad/frame.c:332-422 | one pass of the scan ends in success, in an error that moves on, or in another try one byte further |
| FrameSync.MadStream.Resync | src/A-V/libmad/frame.c:332-422 | the goto loop ends; every position it passed lacks a sync word or was tried and dismissed, also when the rest of the buffer is given up |
| FrameSync.MadStream.Continue | src/A-V/libmad/frame.c:332-410 | while synchronised the outcome is known in full: a frame whose sync word, header and rate are there, and which fits with its guard, is decoded at its place; otherwise it is cut off by the end of the buffer, or sync is lost, each with the next start and the rate remembered |
| FrameSync.ExpectedFrame | src/A-V/libmad/frame.c:374-410 | that outcome in numbers: a rate in the header stays; without one the rate remembered is used if it is not 0 and in Layer III at most 640 kbit/s, and otherwise the one found ahead; the frame is decoded exactly if it fits |
| FrameSync.MadStream.RateSettled | src/A-V/libmad/frame.c:374-384 | of every frame decoded, synchronised or not: its header is the one in the buffer, with its own rate if it has one, else the rate remembered or found, which is then remembered |
| FrameSync.MadStream.FirstFrameFound | src/A-V/libmad/frame.c:332-422 | without synchronisation, a first sync word that is that of a whole frame followed by another is taken, and nothing before or after it |
| FrameSync.MadStream.DecodeStream | src/A-V/libmad/frame.c:300-432 | a stream of frames one after the other, with rates of their own or all free-format at the rate remembered, is decoded frame by frame, each with its own header and rate |
| FrameSync.MadStream.MadHeaderDecode | src/A-V/libmad/frame.c:300-432 | every call ends within the buffer; bytes to be skipped are skipped, over as many buffers as it takes, and a frame is then expected exactly behind them, with the outcome of `Continue`; otherwise it reports an exhausted buffer or strictly advances next_frame; a frame is at least 8 bytes with the guard after it, and has the header in the buffer with the right rate; no candidate is lost |
| FrameSync.MadStream.DecodeAll | src/A-V/libmad/frame.c:300-432 | repeated calls reach the end of the buffer in a bounded number of steps with disjoint frames |
| FixedDiv.MadFDiv | src/A-V/libmad/fixed.c:43-81 | the shift-and-subtract program computes the function the division lemmas are about |
| FixedDiv.LongDivision | src/A-V/libmad/fixed.c:62-80 | the loop from integer quotient and remainder on, wrap-around included |
| FixedDiv.LoopCalm | src/A-V/libmad/fixed.c:66-70 | as long as no remainder overflows, quotient and remainder keep the scaled value and an early exit is exact |
| FixedDiv.LoopOverflow | src/A-V/libmad/fixed.c:66-75 | if any remainder overflows, the result falls short of the ideal one |
| FixedDiv.DividedIff | src/A-V/libmad/fixed.c:43-81 | the result is x*2^28/y rounded to nearest, ties away from zero, if and only if that is representable and no remainder of the operands overflows |
| FixedDiv.CalmMeans | src/A-V/libmad/fixed.c:66-70 | the overflow condition in terms of the operands: each scaled remainder stays below half the range |
| FixedDiv.DividedSmallDivisor | src/A-V/libmad/fixed.c:43-81 | for divisors up to 2^30 in magnitude representability alone is enough |
| FixedDiv.LargeDivisorFails | src/A-V/libmad/fixed.c:66-75 | the largest divisor already fails on the number just below it |
| Interleave.FeedConcat | docs/RTSP/abstractRTSP/RTPInterface.cpp:481-601 | the receiver's state does not depend on how the stream was cut |
| Interleave.FramingRoundTrip | docs/RTSP/abstractRTSP/RTPInterface.cpp:311-342 | text and framed packets, stray marks between them, come out as they went in, in order and on the right channel |
| Interleave.ExpectedDelivered | docs/RTSP/abstractRTSP/RTPInterface.cpp:506-601 | without reference to the receiver: every text byte but 0xFE and 0xFF, and every packet that is not empty and has a reader, with its own channel and data, comes out once, in the order sent, and nothing else does |
| Interleave.TextOutcome | docs/RTSP/abstractRTSP/RTPInterface.cpp:514-519 | text alone comes out byte by byte, as far as it has been read |
| Interleave.StreamPrefix | docs/RTSP/abstractRTSP/RTPInterface.cpp:311-342 | inside packet data some packet that was sent is under way, with its channel and its size, and all before it have been dealt with |
| Interleave.SocketDescriptor.HeaderByte | docs/RTSP/abstractRTSP/RTPInterface.cpp:506-556 | one byte in a header state has the effect of one step of the stream grammar |
| Interleave.SocketDescriptor.HandleRead | docs/RTSP/abstractRTSP/RTPInterface.cpp:248-296 | takes what the socket has, up to the packet's end or the reader's room, stops short of both only if the socket has nothing, and says whether more is to come |
| Interleave.SocketDescriptor.IncomingReport | docs/RTSP/abstractRTSP/RTCP.cpp:416-441 | the reader assembles a packet over any number of calls and reads at least once in each, and leaves off inside a packet only at an idle socket or with a full buffer, which it never gets out of |
| Interleave.SocketDescriptor.SkipByte | docs/RTSP/abstractRTSP/RTPInterface.cpp:577-592 | without a reader one byte of packet data is dropped if the socket has one |
| Interleave.SocketDescriptor.TcpReadHandler1 | docs/RTSP/abstractRTSP/RTPInterface.cpp:481-601 | each call keeps the state equal to that of the bytes read so far, and either reads from the socket, or leaves a packet that is complete, unless the reader is stuck, which it then stays; it asks to be called again exactly if it has read a byte itself |
| Interleave.SocketDescriptor.TcpReadHandler | docs/RTSP/abstractRTSP/RTPInterface.cpp:472-480 | up to 2000 such calls keep the state as well, and get further unless the reader is stuck |
| Interleave.Receive | docs/RTSP/abstractRTSP/RTPInterface.cpp:472-601 | after any calls on a socket that yields any sizes, what was delivered is the beginning of what was sent, all of it once all is read; with as many non-zero sizes as bytes, and twice as many calls as sizes, everything is read and delivered if every packet fits its reader, and otherwise the reader of the first that does not is stuck with everything before it delivered; once all is read the log is what `ExpectedDelivered` says, and for text alone it is at any time the bytes read |
| Interleave.Outcome | docs/RTSP/abstractRTSP/RTPInterface.cpp:481-601 | where the receiver can stand once part of a framed stream has been read |
| RequestScan.FirstBlank | docs/RTSP/abstractRTSP/RTSPServer.cpp:846-860 | the first empty line of a text, or proof that there is none |
| RequestScan.FirstStable | docs/RTSP/abstractRTSP/RTSPServer.cpp:846-890 | a complete request is the same whatever follows it |
| RequestScan.RequestsResume | docs/RTSP/abstractRTSP/RTSPServer.cpp:846-890 | cutting up a stream can be resumed from the left-over bytes alone |
| RequestScan.PrintedRequests | docs/RTSP/abstractRTSP/RTSPServer.cpp:1049-1059 | pipelined well-formed messages are separated exactly as they were sent |
| RequestScan.RequestsPrint | docs/RTSP/abstractRTSP/RTSPServer.cpp:1049-1059 | conversely requests and left-over bytes make up the stream, and each request is well formed |
| RequestScan.ClientConnection.ResetRequestBuffer | docs/RTSP/abstractRTSP/RTSPServer.cpp:697-702 | the buffer is empty and the mark stands three bytes before it |
| RequestScan.ClientConnection.ScanForEnd | docs/RTSP/abstractRTSP/RTSPServer.cpp:846-860 | going on from the last line end found, the scan finds the first empty line of everything buffered, or there is none |
| RequestScan.ClientConnection.TakeNew | docs/RTSP/abstractRTSP/RTSPServer.cpp:846-890 | after new bytes, a request is found exactly if the whole buffer starts with a complete one, its body included |
| RequestScan.ClientConnection.HandleOne | docs/RTSP/abstractRTSP/RTSPServer.cpp:1049-1059 | a handled request is removed and exactly the bytes after it are moved to the front |
| RequestScan.ClientConnection.HandleRequestBytes | docs/RTSP/abstractRTSP/RTSPServer.cpp:780-1068 | all requests completed by the new bytes are handled and the buffer keeps exactly the rest; a dead socket or a full buffer ends the connection |
| RequestScan.Serve | docs/RTSP/abstractRTSP/RTSPServer.cpp:780-1068 | for any chunks: the connection stays open if and only if each finds room beside the unfinished request, and then it has handled exactly the requests of the whole stream |
| RequestLine.DecodeURL | docs/RTSP/abstractRTSP/RTSPCommon.cpp:28-49 | decoding in place equals decoding the string, and bytes after the new end are untouched |
| RequestLine.CopyOne | docs/RTSP/abstractRTSP/RTSPCommon.cpp:31-46 | one character moves down; what is yet to be read is not overwritten |
| RequestLine.DecodedEscaped | docs/RTSP/abstractRTSP/RTSPCommon.cpp:28-49 | decoding undoes every way of escaping any characters, each digit in either case |
| RequestLine.HexPlace | docs/RTSP/abstractRTSP/RTSPCommon.cpp:33-41 | a digit stands for its place among the digits, in either case |
| RequestLine.DecodedBogus | docs/RTSP/abstractRTSP/RTSPCommon.cpp:43-45 | a percent sign that two digits do not follow stays |
| RequestLine.DecodedPlain | docs/RTSP/abstractRTSP/RTSPCommon.cpp:28-49 | a string without a percent sign is left as it is |
| RequestParse.CopyUntil | docs/RTSP/abstractRTSP/RTSPCommon.cpp:74-87 | copies up to the stop character or the size of the buffer |
| RequestParse.FindPath | docs/RTSP/abstractRTSP/RTSPCommon.cpp:89-110 | the path starts after the host of the first rtsp URL, or at the blank after the command |
| RequestParse.Locate | docs/RTSP/abstractRTSP/RTSPCommon.cpp:112-119 | finds the protocol, and going back the end of the path and its last slash |
| RequestParse.ReadPath | docs/RTSP/abstractRTSP/RTSPCommon.cpp:112-150 | splits the path at its last slash, refuses halves that do not fit, decodes the first |
| RequestParse.Unescape | docs/RTSP/abstractRTSP/RTSPCommon.cpp:135-143 | a half of the path goes through its buffer and is decoded there |
| RequestParse.ReadHeader | docs/RTSP/abstractRTSP/RTSPCommon.cpp:152-194 | the first header of a name, whatever its case, and its value |
| RequestParse.ReadContentLength | docs/RTSP/abstractRTSP/RTSPCommon.cpp:196-207 | the last content length that is followed by a number decides, sign and overflow as `strtoul` takes them where long has 64 bits |
| RequestParse.ParseRTSPRequestString | docs/RTSP/abstractRTSP/RTSPCommon.cpp:51-209 | the index loops compute the parse that the round trip is about, error cases included |
| RequestRoundTrip.RoundTrip | docs/RTSP/abstractRTSP/RTSPClient.cpp:494-519 | parsing a printed request gives back command, both halves of the path, sequence number, session and content length |
| RequestRoundTrip.PlainPath | docs/RTSP/abstractRTSP/RTSPClient.cpp:494-519 | a path without percent signs comes through unchanged |
| RequestRoundTrip.EscapedPath | docs/RTSP/abstractRTSP/RTSPCommon.cpp:28-49 | the first half of the path is unescaped, whatever part of it is escaped and how |
| RequestLimits.PartsFit | docs/RTSP/abstractRTSP/RTSPCommon.cpp:51-209 | every part of an accepted request fits, with its NUL, a buffer of 200 characters |
| RequestLimits.SequenceNumberNeeded | docs/RTSP/abstractRTSP/RTSPCommon.cpp:152-174 | without a sequence number, its name in any case, nothing is accepted |
| RequestLimits.ProtocolNeeded | docs/RTSP/abstractRTSP/RTSPCommon.cpp:112-114 | nor without the protocol |
| RequestLimits.WhiteIgnored | docs/RTSP/abstractRTSP/RTSPCommon.cpp:66-72 | white space and NULs before a request do not matter |
| RequestLimits.NumberScanned | docs/RTSP/abstractRTSP/RTSPCommon.cpp:196-207 | a number after white space and perhaps a sign is read modulo 2^32, and as the largest if it takes more than 64 bits |
| RequestLimits.LastLengthDecides | docs/RTSP/abstractRTSP/RTSPCommon.cpp:196-207 | of two content lengths the last decides, whatever lines are around them |
| RequestRoundTrip.SessionFound | docs/RTSP/abstractRTSP/RTSPClient.cpp:567-576 | the session header is found behind any header lines that do not name a session, and only if there is one |
| RequestRoundTrip.ContentFound | docs/RTSP/abstractRTSP/RTSPClient.cpp:479-490 | the printed content length, a signed number like the sequence number, is read back as the length of the content, and as 0 without content |
| RequestRoundTrip.CSeqFound | docs/RTSP/abstractRTSP/RTSPClient.cpp:494-519 | the sequence number, printed as a signed one, is the first header and is read back as it was printed |
| RequestRoundTrip.PathSplit | docs/RTSP/abstractRTSP/RTSPCommon.cpp:112-150 | both halves of the printed path are found, the protocol neither earlier nor across the blank |
| RequestRoundTrip.Pipelined | docs/RTSP/abstractRTSP/RTSPServer.cpp:862-1059 | any number of printed requests sent one after the other are separated by the server as they were sent, if no field breaks its line and no header line is empty |
| RequestRoundTrip.NoEmptyLine | docs/RTSP/abstractRTSP/RTSPClient.cpp:494-519 | if no field breaks its line and the other header lines are whole and not empty, the first empty line of a printed request is its last |
| Reception.SeqNumLT | docs/RTSP/abstractRTSP/RTPSource.cpp:399-409 | less-than holds exactly if the difference modulo 2^16 is between 1 and 2^15-1 |
| Reception.UnwrapIff | docs/RTSP/abstractRTSP/RTPSource.cpp:248-276 | a true number is recovered from its low 16 bits if and only if it lies within half a cycle of the highest |
| Reception.RangeRecovered | docs/RTSP/abstractRTSP/RTPSource.cpp:221-277 | for any orderly arrivals highest minus base is the true range, both moved by the same whole cycles |
| Reception.HighestGrows | docs/RTSP/abstractRTSP/RTPSource.cpp:248-276 | whatever arrives, the highest extended number never goes down |
| Reception.ReceptionStats.constructor | docs/RTSP/abstractRTSP/RTPSource.cpp:188-219 | the initial sequence number set by the constructor is lost again |
| Reception.ReceptionStats.NoteIncomingPacket | docs/RTSP/abstractRTSP/RTPSource.cpp:231-277 | a record is updated in place as the specification says, 32-bit wrap-around included |
| Reception.ReceptionStats.Reset | docs/RTSP/abstractRTSP/RTPSource.cpp:394-397 | a reset starts a new period and marks the highest number |
| Reception.ActiveNoted | docs/RTSP/abstractRTSP/RTPSource.cpp:100-125 | a packet makes its source active and no other, and adds one to their number exactly if it was not |
| Reception.ActiveRemoved | docs/RTSP/abstractRTSP/RTPSource.cpp:143-150 | taking out a record keeps the number of active ones if and only if it was not active |
| Reception.ReceptionStatsDB.NoteIncomingPacket | docs/RTSP/abstractRTSP/RTPSource.cpp:100-125 | the counter stays the number of active records |
| Reception.ReceptionStatsDB.NoteIncomingSR | docs/RTSP/abstractRTSP/RTPSource.cpp:127-141 | a sender report makes a record if need be, and no source active |
| Reception.ReceptionStatsDB.Reset | docs/RTSP/abstractRTSP/RTPSource.cpp:79-87 | every active record is reset, in whatever order, and the counter is 0 |
| Reception.ReceptionStatsDB.RemoveRecord | docs/RTSP/abstractRTSP/RTPSource.cpp:143-150 | the counter, untouched, stays right if and only if the record was not active |
| RtcpMembers.MemberDatabase.constructor | docs/RTSP/abstractRTSP/RTCP.cpp:33-36 | one member, ourselves, and an empty table |
| RtcpMembers.MemberDatabase.MemberIff | docs/RTSP/abstractRTSP/RTCP.cpp:42-44 | as long as no stamp is 0, a stamp is found exactly for members |
| RtcpMembers.MemberDatabase.NoteMembership | docs/RTSP/abstractRTSP/RTCP.cpp:46-57 | the stamp is renewed and the count goes up exactly for a newcomer |
| RtcpMembers.MemberDatabase.Remove | docs/RTSP/abstractRTSP/RTCP.cpp:59-65 | the count goes down exactly if the member was there |
| RtcpMembers.MemberDatabase.FindOld | docs/RTSP/abstractRTSP/RTCP.cpp:83-100 | a pass over the table finds an old member, or there is none |
| RtcpMembers.SilentDropped | docs/RTSP/abstractRTSP/RTCP.cpp:858-877 | after five reports without a word a member is still there; after ten it is not |
| RtcpPacket.AcceptedTiles | docs/RTSP/abstractRTSP/RTCP.cpp:531-812 | an accepted packet is used up to the last byte by the lengths in its headers, and a word more for each APP subpacket |
| RtcpPacket.AppOverruns | docs/RTSP/abstractRTSP/RTCP.cpp:637-664 | an APP subpacket that ends a packet, alone or after any sound subpackets that begin with a report, takes the walk one word past the end, although there is nothing wrong with it: what comes before is understood, its handler is called, and its name is skipped twice; the program reads on there |
| RtcpPacket.HeaderBack | docs/RTSP/abstractRTSP/RTCP.cpp:512-535 | a header read back gives count, type and length; 32 overflows into the padding bit and is no good at the start |
| RtcpPacket.BodyBack | docs/RTSP/abstractRTSP/RTCP.cpp:551-615 | sender information and report blocks are read as they were written |
| RtcpPacket.OneBack | docs/RTSP/abstractRTSP/RTCP.cpp:531-795 | the walk over one subpacket, whatever follows it, ends where it ends and tells what is in it |
| RtcpPacket.Understanding | docs/RTSP/abstractRTSP/RTCP.cpp:512-825 | a compound packet that starts with a report and holds fewer than 32 blocks in each is understood subpacket for subpacket |
| RtcpPacket.UnderstoodIff | docs/RTSP/abstractRTSP/RTCP.cpp:512-825 | of a packet that begins with a report, cut off after any word, everything is understood word for word if and only if nothing is cut off and every report has fewer than 32 blocks |
| RtcpPacket.EventsTold | docs/RTSP/abstractRTSP/RTCP.cpp:537-634 | what a subpacket tells a listener: the time of a sender if there is a source, the blocks about our own transmission in order under the reporter's name, the arrival of a receiver's report, the one who leaves |
| RtcpPacket.SenderUnderstood | docs/RTSP/abstractRTSP/RTCP.cpp:537-548 | a compound packet counts as sent by its last subpacket, by a substitute if that is a receiver calling itself 1 |
| RtcpPacket.KindUnderstood | docs/RTSP/abstractRTSP/RTCP.cpp:528-662 | and its kind is that of the last subpacket that is not a description |
| RtcpPacket.CutOff | docs/RTSP/abstractRTSP/RTCP.cpp:531-812 | sound subpackets cut off within one are rejected there, after what comes before is understood; cut off between two they are taken for whole |
| RtcpPacket.FirstDecides | docs/RTSP/abstractRTSP/RTCP.cpp:512-524 | a packet whose first subpacket is not a report of fewer than 32 blocks is rejected at once |
| RtcpPacket.FirstDecidesCut | docs/RTSP/abstractRTSP/RTCP.cpp:512-524 | the same however short the packet is cut |
| RtcpPacket.ReportBlocks | docs/RTSP/abstractRTSP/RTCP.cpp:584-606 | the block loop notes exactly the blocks about our own transmission |
| RtcpPacket.ReadBody | docs/RTSP/abstractRTSP/RTCP.cpp:551-786 | a subpacket's body is taken apart, or found too short, and the cursor tells what is left; the name of an APP subpacket is not taken off its length |
| RtcpPacket.ReadSubpacket | docs/RTSP/abstractRTSP/RTCP.cpp:531-795 | the cursor, size and length variables stay in step over one subpacket |
| RtcpPacket.ProcessIncomingReport | docs/RTSP/abstractRTSP/RTCP.cpp:488-836 | the cursor loop computes the parse that the theorems are about, rejections included |
| RtcpReport.ReportUnderstood | docs/RTSP/abstractRTSP/RTCP.cpp:858-888 | a report and its ending are understood word for word, or rejected with 32 active sources or more |
| RtcpPacket.UnderstoodSeen | docs/RTSP/abstractRTSP/RTCP.cpp:531-535 | every header of an understood packet says the type, count and length of what was put in |
| RtcpReport.SentAccepted | docs/RTSP/abstractRTSP/RTCP.cpp:858-888 | what goes out of reports and an ending, left-overs included, is understood word for word by everybody if and only if each report is on fewer than 32 sources and it fits 1456 bytes; if it does not fit it is accepted if and only if it is cut off between two subpackets; it is refused if the first report is on 32 sources or more |
| RtcpReport.SentAsDue | docs/RTSP/abstractRTSP/RTCP.cpp:858-888 | all that holds of every packet in a session's log, whatever was left in the buffer before it; with an empty buffer the number of active sources decides |
| RtcpReport.TakenFor | docs/RTSP/abstractRTSP/RTCP.cpp:1095-1137 | a packet that can be said is taken by everybody for one of the source's, or of the sink's if there is no source |
| RtcpReport.CleanSayable | docs/RTSP/abstractRTSP/RTCP.cpp:858-888 | a report with nothing before it fits, and can be said, if it is on fewer than 32 sources, and is not sound otherwise |
| RtcpReport.LossBack | docs/RTSP/abstractRTSP/RTCP.cpp:1040-1063 | the loss word holds the fraction and, as a signed number of 24 bits, the total lost, clamped to what that can hold |
| RtcpLoss.ClampedTotal | docs/RTSP/abstractRTSP/RTCP.cpp:1042-1050 | the total is kept if 24 bits with a sign can hold it, and is the largest or smallest of these otherwise |
| RtcpReport.FractionExact | docs/RTSP/abstractRTSP/RTCP.cpp:1051-1061 | for a source that is reported on the fraction is the exact share of packets lost, rounded down, and does not overflow its byte |
| RtcpLoss.TotalLostTrue | docs/RTSP/abstractRTSP/RTCP.cpp:1040-1050 | for true sequence numbers the total reported is one short of the packets missing from the range seen |
| RtcpLoss.FractionTrue | docs/RTSP/abstractRTSP/RTCP.cpp:1051-1061 | from the second report on the fraction is the true share of packets lost since the last |
| RtcpLoss.FirstFraction | docs/RTSP/abstractRTSP/RTCP.cpp:1051-1061 | in the first report it is 255 256ths whatever was lost, as long as not more than 256 packets have come |
| RtcpLoss.SinceReport | docs/RTSP/abstractRTSP/RTPSource.cpp:225-267 | after a report, packets are counted anew and expected from the highest number at the report |
| RtcpLoss.MiddleOfTime | docs/RTSP/abstractRTSP/RTCP.cpp:1068-1071 | the time of the last sender report is given by its middle 32 bits |
| RtcpReport.ReportedLoss | docs/RTSP/abstractRTSP/RTCP.cpp:1040-1063 | the clamping and shifting of the program yields that word |
| RtcpReport.ReportSize | docs/RTSP/abstractRTSP/RTCP.cpp:120-122 | with fewer than 32 sources a report with its ending fits the largest packet |
| RtcpReport.OutPacketBuffer.EnqueueItem | docs/RTSP/abstractRTSP/RTCP.cpp:1117-1123 | the item is followed by at least one zero and fills whole words |
| RtcpReport.ItemFitted | src/A-V/live555/liveMedia/MediaSink.cpp:132-142 | an item and its padding, put into a buffer of 1456 bytes as far as there is room, give the beginning of what they give without that limit |
| RtcpReport.RTCPInstance.EnqueueReportPrefix | docs/RTSP/abstractRTSP/RTCP.cpp:992-1015 | the header announces as many blocks as there are active sources, 32 at most |
| RtcpReport.RTCPInstance.EnqueueReportBlocks | docs/RTSP/abstractRTSP/RTCP.cpp:1017-1032 | one block for each active source, from its record, and no other, in any order |
| RtcpReport.RTCPInstance.EnqueueReportSuffix | docs/RTSP/abstractRTSP/RTCP.cpp:1017-1032 | after the blocks a new period starts |
| RtcpReport.RTCPInstance.AddSR | docs/RTSP/abstractRTSP/RTCP.cpp:959-983 | a whole sender report is put into the buffer |
| RtcpReport.RTCPInstance.AddRR | docs/RTSP/abstractRTSP/RTCP.cpp:985-990 | a whole receiver report is put into the buffer |
| RtcpReport.RTCPInstance.AddReport | docs/RTSP/abstractRTSP/RTCP.cpp:934-957 | succeeds exactly if reports are turned on; all active sources go into the first report and none into a second; on failure a sender report on them is left in the buffer exactly if the sink reports and the source does not |
| RtcpReport.RTCPInstance.AddSDES | docs/RTSP/abstractRTSP/RTCP.cpp:1095-1124 | the description with our SSRC; without sink and source the SSRC is missing |
| RtcpReport.RTCPInstance.AddBYE | docs/RTSP/abstractRTSP/RTCP.cpp:1126-1137 | the BYE with our SSRC |
| RtcpReport.RTCPInstance.SendReport | docs/RTSP/abstractRTSP/RTCP.cpp:858-877 | sends the report built from the tables, after what was left over, and logs it with its time; resets the tables before members are reaped, so the counter of active sources stays right; sends nothing if reports are turned off, and says what is then left over |
| RtcpReport.RTCPInstance.SendBYE | docs/RTSP/abstractRTSP/RTCP.cpp:879-888 | sends a report and a BYE, logged with its time, whether or not reports are turned on |
| RtcpReport.RTCPInstance.RemoveSSRC | docs/RTSP/abstractRTSP/RTCP.cpp:918-926 | forgets a member and, if asked, its reception record |
| RtcpReport.RTCPInstance.ReapOldMembers | docs/RTSP/abstractRTSP/RTCP.cpp:79-109 | ends with exactly the members whose stamp is at least the threshold |
| RtcpTimer.TargetFits | docs/RTSP/abstractRTSP/rtcp_from_spec.c:121-142 | one packet of average size from everyone who shares fits the share of the bandwidth over the interval aimed at |
| RtcpTimer.TargetIs | docs/RTSP/abstractRTSP/rtcp_from_spec.c:84-142 | in numbers: while there are senders, but fewer than a quarter of the members, a sender aims at the average packet times the senders over a quarter of the bandwidth, a receiver at the average times the other members over three quarters; otherwise everybody at the average times the members over all of it; and at 5 seconds at least, 2.5 at first |
| RtcpTimer.SharesAdd | docs/RTSP/abstractRTSP/rtcp_from_spec.c:121-130 | senders and receivers divide members and bandwidth between them without loss |
| RtcpTimer.IntervalBounds | docs/RTSP/abstractRTSP/rtcp_from_spec.c:141-151 | the random interval lies between half and one and a half of its target, and never below the least gap |
| RtcpTimer.DrawnBetween | docs/RTSP/abstractRTSP/rtcp_from_spec.c:275-283 | a time is drawn towards now in exact proportion to the members left, and not past now |
| RtcpTimer.ReversedTwice | docs/RTSP/abstractRTSP/rtcp_from_spec.c:275-283 | reconsidering once for all that have left is the same as for one after the other |
| RtcpTimer.ReceivedChanges | docs/RTSP/abstractRTSP/rtcp_from_spec.c:230-289 | reports and BYEs change the average by a sixteenth; nothing else changes, unless a BYE leaves fewer members while a report is waiting, and then tp and tn change in exact proportion |
| RtcpTimer.AverageNears | docs/RTSP/abstractRTSP/rtcp_from_spec.c:203-205 | with packets of one size the average comes nearer to it by a sixteenth of the way each time |
| RtcpTimer.ReversedKeeps | docs/RTSP/abstractRTSP/rtcp_from_spec.c:264-283 | reverse reconsideration keeps tp <= tp' <= tc, and tc <= tn' <= tn when tn >= tc |
| RtcpTimer.ReceivedPaced | docs/RTSP/abstractRTSP/rtcp_from_spec.c:230-289 | no arrival makes the timer forget its last transmission |
| RtcpTimer.RestartedPaced | docs/RTSP/abstractRTSP/rtcp_from_spec.c:192-226 | a transmission that is due keeps all transmissions spaced |
| RtcpTimer.DueAtExpiry | docs/RTSP/abstractRTSP/rtcp_from_spec.c:192-226 | a timer set by some interval fires when it expires if the same interval is drawn again, and not before |
| RtcpTimer.DrawingFor | docs/RTSP/abstractRTSP/RTCP.cpp:1157-1171 | whatever the bandwidth, no drawn interval is shorter than the least gap |
| RtcpTimer.DrawingIs | docs/RTSP/abstractRTSP/RTCP.cpp:1157-1171 | the interval in numbers: 6.4 bytes a second for each kilobit a second of the session, a quarter of that for us as a sender with five members or more; then spread by the random number and divided by e - 1.5, as far as the constant goes |
| RtcpTimer.ReportTimer.OnExpire | docs/RTSP/abstractRTSP/rtcp_from_spec.c:154-227 | fires exactly if the last transmission is an interval ago, and otherwise is set again for then |
| RtcpTimer.ReportTimer.ReportSent | docs/RTSP/abstractRTSP/rtcp_from_spec.c:203-222 | after a report average, last transmission and next expiry are renewed |
| RtcpTimer.ReportTimer.OnReceive | docs/RTSP/abstractRTSP/rtcp_from_spec.c:230-289 | the arrival of a packet updates the timer as the specification says |
| RtcpTimer.Participant.OnExpire | docs/RTSP/abstractRTSP/RTCP.cpp:1157-1171 | an expiry sends exactly one packet, at that time, if the last transmission is an interval ago and reports are turned on, and none otherwise; all reports that have gone out stay spaced |
| RtcpTimer.Participant.SendRTCPReport | docs/RTSP/abstractRTSP/RTCP.cpp:858-877 | one report goes out exactly if reports are turned on, and what becomes of it is as it should be, whatever was left in the buffer |
| RtcpTimer.Participant.Close | docs/RTSP/abstractRTSP/RTCP.cpp:183-190 | at the end of the session exactly one BYE goes out, at once |
| RtcpTimer.Participant.Happen | docs/RTSP/abstractRTSP/rtcp_from_spec.c:154-289 | whatever happens next keeps session and timer valid and reports spaced; only an expiry can send anything, and one packet at most |
| RtcpTimer.Participant.OnReceive | docs/RTSP/abstractRTSP/RTCP.cpp:838-856 | an arrival updates members and timer; a BYE from a stranger makes a member |
| RtcpTimer.Run | docs/RTSP/abstractRTSP/rtcp_from_spec.c:154-289 | in every run of expiries, arrivals and media packets up to the BYE at its end, the reports that went out are at least the least gap apart, the member count is one plus the table, and stamps lie between 1 and the report counter; every packet, with whatever was left in the buffer before it, is understood by whoever receives it if and only if each report in it is on fewer than 32 sources and it fits; nothing is ever left in the buffer unless the source's reports are turned off while the sink's are not; and no report is on more sources than were heard |
| Brackets.MatchReversed | config/scripts/check/cpplint.py:1218-1312 | matching forwards and matching backwards are the same relation |
| Brackets.MatchUnique | config/scripts/check/cpplint.py:1218-1357 | a bracket is closed in one place only and closes one bracket only |
| Brackets.NestedMatch | config/scripts/check/cpplint.py:1218-1357 | an opener, nested text and a closer match, whatever is around them |
| Brackets.Pairs | config/scripts/check/cpplint.py:1261-1267 | the openers and closers and which belongs to which |
| Brackets.AtInjective | config/scripts/check/cpplint.py:1242-1285 | different lines and columns are different characters of the text |
| Brackets.FindEndOfExpressionInLine | config/scripts/check/cpplint.py:1218-1239 | the first place in the line where the depth comes to 0, or the depth at its end |
| Brackets.FindStartOfExpressionInLine | config/scripts/check/cpplint.py:1288-1312 | the same backwards |
| Brackets.CloseInLine | config/scripts/check/cpplint.py:1269-1282 | what is found in one line is found in the text as a whole |
| Brackets.OpenInLine | config/scripts/check/cpplint.py:1341-1354 | the same backwards |
| Brackets.CloseExpression | config/scripts/check/cpplint.py:1242-1285 | points past the bracket that matches, over any number of lines, or there is none |
| Brackets.ReverseCloseExpression | config/scripts/check/cpplint.py:1313-1357 | points at the bracket that is matched, or there is none |
| Brackets.ThereAndBack | config/scripts/check/cpplint.py:1242-1357 | from an opener to its closer and back to exactly the same line and column |
| Brackets.BackAndThere | config/scripts/check/cpplint.py:1242-1357 | from a closer to its opener and forward past exactly the same place |
| Preproc.StepFollows | config/scripts/check/cpplint.py:1856-1890 | one line keeps the stack, or the copy saved at the outermost else, equal to the effect of the lines kept |
| Preproc.KindIff | config/scripts/check/cpplint.py:1857-1876 | a line is a directive exactly if a `#` with only space before it is followed, perhaps after space, by one of the words as a whole word |
| Preproc.RunFollows | config/scripts/check/cpplint.py:1836-1890 | the same at every point of every file, well nested or not, for any effect of lines |
| Preproc.ClosedFile | config/scripts/check/cpplint.py:1836-1890 | with every conditional closed the stack is that of the kept lines and nothing remains saved |
| Preproc.RunText | config/scripts/check/cpplint.py:1836-1890 | a well-nested text, wherever it stands, has the meaning of its first branches and restores the saved stacks |
| Preproc.FirstBranchesDecide | config/scripts/check/cpplint.py:1836-1890 | deleting every branch but the first of each conditional changes nothing |
| Nesting.DeepCopy | config/scripts/check/cpplint.py:1857-1872 | new objects with the same contents |
| Nesting.BlockStack.Update | config/scripts/check/cpplint.py:1892-2046 | a line's effect on the stack of objects is the specified effect on their values |
| Nesting.BlockStack.CountParentheses | config/scripts/check/cpplint.py:1906-1927 | parentheses and inline assembly change the innermost block only |
| Nesting.BlockStack.DeclareClass | config/scripts/check/cpplint.py:1970-1979 | a class is declared only outside parentheses, and decides what is left of the line |
| Nesting.BlockStack.Consume | config/scripts/check/cpplint.py:2012-2046 | a brace, semicolon or parenthesis completes, pushes or pops a block |
| NestingLaws.OpeningBrace | config/scripts/check/cpplint.py:2019-2029 | a lone opening brace puts one block on the stack, or marks the head that waits for it and nothing else |
| NestingLaws.ClosingBrace | config/scripts/check/cpplint.py:2042-2046 | a lone closing brace removes the innermost block |
| NestingLaws.GivingUp | config/scripts/check/cpplint.py:2030-2041 | a semicolon or closing parenthesis removes a head that waits for its brace and does nothing else |
| NestingLaws.ParenthesesAdd | config/scripts/check/cpplint.py:1908-1911 | over any lines the innermost block's parentheses are the running sum, and nothing else changes |
| NestingLaws.AssemblyChanges | config/scripts/check/cpplint.py:1913-1927 | inline assembly is entered exactly at one parenthesis, over exactly at none |
| NestingLaws.AssemblyRuns | config/scripts/check/cpplint.py:1913-1927 | once begun it goes on over any lines until its parentheses are closed |
| NestingLaws.BalancedLines | config/scripts/check/cpplint.py:2011-2046 | lines in which braces match leave the stack as it was, however they are cut |
| NestingLaws.ClassHead | config/scripts/check/cpplint.py:1970-1994 | a class head puts one block on the stack, private unless it is a struct or says otherwise |
| NestingLaws.NoClassInParentheses | config/scripts/check/cpplint.py:1975-1979 | inside parentheses `class` declares nothing |
| NestingLaws.ForwardDeclaration | config/scripts/check/cpplint.py:2030-2041 | a forward declaration, or a parameter with `class` in it, leaves the stack as it was, on one line or on many |
| NestingLaws.WholeClass | config/scripts/check/cpplint.py:1970-2046 | so does a class with its body |
| NestingLaws.WholeNamespaces | config/scripts/check/cpplint.py:1929-1951 | and namespaces opened on one line and closed one after the other |
| NestingLaws.WholeNamespace | config/scripts/check/cpplint.py:1929-1951 | and one whose brace comes later, or not at all |
| NestingLaws.LinesWithin | config/scripts/check/cpplint.py:1892-2046 | lines inside a block neither depend on what is around it nor change that |
| NestingLaws.AfterPlainly | config/scripts/check/cpplint.py:1892-2046 | these are the stacks that `CheckFile` speaks of |
| Nesting.NestingState.OnIf | config/scripts/check/cpplint.py:1857-1860 | a copy of the stack is saved |
| Nesting.NestingState.OnElse | config/scripts/check/cpplint.py:1861-1875 | at the first else the stack is saved to be kept; the stack before the conditional comes back |
| Nesting.NestingState.OnEndif | config/scripts/check/cpplint.py:1876-1890 | the kept stack comes back, and the checkpoint is dropped |
| Nesting.NestingState.UpdateStack | config/scripts/check/cpplint.py:1906-2046 | nothing that was saved changes with the stack |
| Nesting.NestingState.Update | config/scripts/check/cpplint.py:1892-2046 | a line has exactly the effect of one step of the machine on values |
| Nesting.CheckFile | config/scripts/check/cpplint.py:1836-2046 | after a whole file the objects follow exactly the lines in first branches |
| Playlist.TargetEnough | docs/RTSP/abstractRTSP/RTSPServerSupportingHTTPStreaming.cpp:200-206 | with both roundings, the target is more than an equal share of the duration, unless a share is 2^24 seconds or more, and then hardly less; and unless it is 10 it is at most 2 seconds more, 9 for a huge share |
| Playlist.MaxSpecsIs | docs/RTSP/abstractRTSP/RTSPServerSupportingHTTPStreaming.cpp:195-203 | there is room for so many descriptions, and not certainly for one more |
| PlaylistRead.TextBack | docs/RTSP/abstractRTSP/RTSPServerSupportingHTTPStreaming.cpp:180-226 | a client that reads the text from the front finds the target duration and every segment, with its start and length, in order |
| Playlist.RoomForOne | docs/RTSP/abstractRTSP/RTSPServerSupportingHTTPStreaming.cpp:200-226 | with no more descriptions written than allowed for, another and the ending still fit the buffer |
| Playlist.Advance | docs/RTSP/abstractRTSP/RTSPServerSupportingHTTPStreaming.cpp:213-222 | one more segment, cut off in single precision, leaves less than a second or at least one, and then the cutting goes on as before |
| Playlist.WriteSpecs | docs/RTSP/abstractRTSP/RTSPServerSupportingHTTPStreaming.cpp:213-222 | the loop ends with the descriptions of the segments cut off one by one, at most one more than allowed for |
| Playlist.MakePlaylist | docs/RTSP/abstractRTSP/RTSPServerSupportingHTTPStreaming.cpp:174-226 | for every duration of single precision below 2^31 the segments follow one another evenly from 0 to where a closed form says, and the text with its NUL fits the buffer; they tile [0, floor(duration)) if and only if the closed form gives that end, and there are no more than there is room for if and only if it is within so many targets; they keep in step with what is left, and so tile, if and only if the first subtraction is exact, as it is up to 2^24 seconds and a segment |
| Playlist.InStepIff | docs/RTSP/abstractRTSP/RTSPServerSupportingHTTPStreaming.cpp:213-222 | start and what is left make up the duration at every segment if and only if the first subtraction is exact in single precision |
| Playlist.InStepTiles | docs/RTSP/abstractRTSP/RTSPServerSupportingHTTPStreaming.cpp:213-222 | in step, the segments tile the file up to its last whole second, in no more segments than there is room for if the target exceeds an equal share |
| Playlist.TilesIff | docs/RTSP/abstractRTSP/RTSPServerSupportingHTTPStreaming.cpp:213-222 | for every duration the segments tile the file if and only if the closed form for their end gives its last whole second |
| Playlist.EndExact | docs/RTSP/abstractRTSP/RTSPServerSupportingHTTPStreaming.cpp:213-222 | for every duration, with every difference rounded, the last segment ends where the closed form says |
| Playlist.CountIff | docs/RTSP/abstractRTSP/RTSPServerSupportingHTTPStreaming.cpp:200-222 | there are at most so many segments if and only if the closed form is within so many targets |
| Playlist.TooManySegments | docs/RTSP/abstractRTSP/RTSPServerSupportingHTTPStreaming.cpp:200-222 | for a file of 25600124 seconds with a name of sixteen characters there is one segment more than there is room for |
| Playlist.LongFileMissed | docs/RTSP/abstractRTSP/RTSPServerSupportingHTTPStreaming.cpp:203-222 | for a file of 20840448 seconds with a name of one character the segments reach 30 seconds too far |
| Rounding.SameDifference | docs/RTSP/abstractRTSP/RTSPServerSupportingHTTPStreaming.cpp:216 | if taking a whole number away is exact in single precision once, it is exact again |
| Rounding.GridDifference | docs/RTSP/abstractRTSP/RTSPServerSupportingHTTPStreaming.cpp:216 | while what is left is large, a rounded difference takes away the target rounded to the grid of that size, to even on a tie |
| Grid.ReachOnce | docs/RTSP/abstractRTSP/RTSPServerSupportingHTTPStreaming.cpp:213-222 | the closed form, with one division for each grid, is what one segment after the other comes to |
| Grid.NearestLess | docs/RTSP/abstractRTSP/RTSPServerSupportingHTTPStreaming.cpp:216 | from a place on the grid, rounding the difference is subtracting the rounded number |
| Floats.SingleError | docs/RTSP/abstractRTSP/RTSPServerSupportingHTTPStreaming.cpp:216 | rounding to single precision is off by one part in 2^24 at most |

## Left out

- Sockets, the event scheduler, `send` and `connect`, process and pipe code: how much a socket yields is an arbitrary schedule, what is sent or handled is a log.
- FrameSync.MadStream.MadHeaderDecode: the reduced-resolution and single-channel options, the header's duration and flag fields, and pointer arithmetic beyond 4 GiB are not modelled.
- FrameSync.DecodeHeader: the stale CRC fields of a header without protection are not modelled; the strict-conformance build option is off, as it is in the default build.
- FrameSync.FreeFormatRecovered: for Layer I only the exact condition (`FrameHeader.LayerOneRateExactIff`) is proved, because the code's rounding does not recover every rate.
- Interleave.SocketDescriptor.HandleRead: errors of the socket, deregistration of an interface in the middle of a packet and one interface registered on two channels are not modelled.
- Interleave.SocketDescriptor.TcpReadHandler: the signals 0xFE and 0xFF to the byte handler are dropped; what the handler does with them is not part of this model.
- RequestScan.ClientConnection.HandleRequestBytes: RTSP over HTTP tunnelling with its base64 decoding is not modelled, nor what handling a request does to other connections.
- RequestRoundTrip.RoundTrip: authentication and user agent headers are any header lines; how they are made is not part of this model.
- Reception.RangeRecovered: packet counters are unbounded; the original's wrap at 2^32 packets.
- Reception.ReceptionStats.NoteIncomingPacket: byte counts, jitter, gaps and presentation times are left out: their rounding would dominate.
- RtcpPacket.ProcessIncomingReport: what the walk finds beyond the end of a packet, once an APP subpacket has led it there, is not modelled; the packet is given as its whole words and the number of bytes left over.
- RtcpReport.RTCPInstance.EnqueueReportBlock: jitter and delay words of a block are arbitrary.
- RtcpReport.SentAccepted: of a packet whose first report is sound and a later one is not, it is proved that it is not understood; whether it is accepted all the same depends on the data.
- RtcpReport.RTCPInstance.SendReport: the table of transmission statistics and application packets share the session in the original and are left out; the report counter does not wrap.
- RtcpTimer.Run: floating-point rounding of times is left out; a report that is due counts as sent for the timer even if reports are turned off, as in the original.
- RtcpTimer.ReportTimer.OnReceive: arrivals of media packets do not reach the timer in this program; the branch for them is left out.
- Nesting.BlockStack.Update: regular expressions are not modelled; what they find in a line is given with the line. Indentation checks and error messages are left out.
- Preproc.RunFollows: whether a line is a directive is decided by `Preproc.KindOf`, which follows the three patterns for ASCII letters and white space.
- Playlist.MakePlaylist: durations of 2^31 seconds and more, which do not fit the conversions, are not modelled, nor is the HTTP response header around the playlist.
- Layer decoding and synthesis of libmad, jitter and time-stamp conversion, SDP, authentication, the client's response scanner, ffmpeg tools and cpplint's style rules: formatting, floating point or regular expressions, with little to prove.
