# Verification models of the Target Communication Framework agent

Dafny models of the stateful cores of the TCF agent, with proofs of what they promise. `dafny verify
dfyconfig.toml` checks the whole project. The modules:

- `Framing.dfy`, `InputBuffer.dfy`, `OutputQueue.dfy`, `TcpOutput.dfy`, `Channel.dfy`: a channel, from the
  encoder with its back-patched binary blocks, through the output queue and the socket, to the growable
  ring with its two parsers. The wire format is a small automaton in `Framing`; `Channels` states the
  result end to end: what is read is what was written.
- `LocationPieces.dfy`, `RegisterValues.dfy`: values scattered over bits of registers and memory, in two
  bit orders, and whole registers as numbers.
- `NumberPrinting.dfy`, `NumberScanning.dfy`: a double printed with integer arithmetic only, its error
  bound, and the scanner that reads the text back.
- `Base64.dfy`, `JsonBinary.dfy`: BASE64 and its use for streaming binary data in JSON.
- `EventLoop.dfy`, `WorkerPool.dfy`, `CacheClients.dfy`, `Replies.dfy`, `ChannelLife.dfy`: event queues and
  dispatch, worker threads, restartable cache transactions, commands and replies, and the lock count
  that keeps a channel alive. In these a method is one atomic step of one thread, `Valid` is what holds in
  every reachable state, and ghost histories say what any run did.
- `TmpAlloc.dfy`: the pools for temporary memory.
- `ContextQuery.dfy`, `QuerySyntax.dfy`: the matcher for context queries and their parser.

Methods follow the source branch by branch and are proved against specification functions or state
invariants; lemmas state what the source promises about those. Sockets, clocks, threads and callbacks
are nondeterministic steps, parameters or sequences of further steps. Where an operation may be called
only in some states (a handler only on the dispatch thread, a message only when one was triggered), its
`requires` says so, as the assertions in the source do.

Five things in the code differ from what one would expect, and the model keeps them as they are:

- `inputbuf.c:261` asserts that a long message that ends is the only one counted. An EOS marker inside a
  long message breaks this: `InputBuffer.LongMessageCheckExact` gives the exact condition, `Scan` and
  `ReadDone` tell whether the assertion held, and `CutLongMessage` makes it fail.
- `protocol.c:712` unlinks a closed command through a pointer that was taken before the handler ran. If it
  points to the head of a chain and the handler sent a command into that chain, that command is lost
  with it: its reply will be unexpected and its handler never called. The guard is `ReplyTable.Dooms`,
  which can be asked before the command is sent; `doomed` records the commands it held for, and
  `CalledOnDisconnect` proves that the handlers of all others, and of no doomed one, are called.
  `Replies.LoseReply` is a run that loses one.
- `inputbuf.c:327` drops waiting messages once the end of the stream is known: `InputBuffer.EofHidesMessage`.
- `inputbuf.c:90` leaves the end of the window where it was at end of file. `InputBuf.AtEof` gives the exact
  condition under which the window is empty, and `InputBuffer.StaleWindow` a state in which it is not.
- `contextquery.c:296` looks for `**` only in the last written property of a part, and then ignores the others;
  `ContextQuery.Deep` says so, `ContextQuery.DeepAlone` proves it, and `QuerySyntax.DeepWithProperty` is
  such a query.

## Model

| member | source | states |
|---|---|---|
| `Framing.DecodeConcat` | agent/tcf/framework/inputbuf.c:205-290 | The escape/length automaton can be run over any split of a byte stream: states and symbols compose. |
| `Framing.DecodeBlock` | agent/tcf/framework/inputbuf.c:105-127 | Inside a binary block every byte stands for itself, escape bytes included, and the state afterwards is the remaining length. |
| `Framing.DecodePlain` | agent/tcf/framework/inputbuf.c:130-180 | Outside blocks a run without ESC decodes to itself. |
| `Framing.DecodePrefix` | agent/tcf/framework/inputbuf.c:74-182 | More bytes on the wire only add symbols. |
| `Framing.WireDecodes` | agent/tcf/framework/channel_tcp.c:439-468 | Any symbols, each sent as its own bytes outside of blocks, are read back as they were. |
| `Framing.WireBytes` | agent/tcf/framework/streams.h:26-34 | The wire format in literal bytes: 3 is the escape byte, 3 0 stands for it, 3 1 ends a message, 3 2 the stream, and 3 3 begins a block with its length in groups of seven bits. |
| `InputBuffer.OnSymbolsBalanced` | agent/tcf/framework/inputbuf.c:205-290 | However many symbols pass the fill pointer, the message count stays the unread EOMs plus one for a long message plus one for end of file. |
| `InputBuffer.LongMessageCheckExact` | agent/tcf/framework/inputbuf.c:255-270 | The assertion made when a long message ends holds exactly if no end-of-file indication was recorded before that end of message. |
| `InputBuffer.LongMessageCheckFails` | agent/tcf/framework/inputbuf.c:255-270 | The failing input: the bytes ESC 2 ESC 1, EOS then EOM, while a long message is handled. |
| `InputBuffer.CutLongMessage` | agent/tcf/framework/inputbuf.c:205-290 | A completed read of those four bytes, on any valid buffer in that state, makes the assertion fail. |
| `InputBuffer.InputBuf.constructor` | agent/tcf/framework/inputbuf.c:184-193 | A new buffer is empty and offers all but one byte of itself for reading. |
| `InputBuffer.InputBuf.FreeSize` | agent/tcf/framework/inputbuf.c:51-64 | The size offered is the free part of the ring up to its end, one byte always kept free, and nothing after end of file. |
| `InputBuffer.InputBuf.TriggerRead` | agent/tcf/framework/inputbuf.c:66-72 | A read is requested at the fill pointer for the free region unless one is pending, the ring is full or the stream has ended. |
| `InputBuffer.InputBuf.ScanByte` | agent/tcf/framework/inputbuf.c:216-288 | One byte outside a block moves the fill-side flags as the automaton moves, and the counters as its symbol requires. |
| `InputBuffer.InputBuf.Scan` | agent/tcf/framework/inputbuf.c:215-290 | The scan of newly read bytes, across the end of the ring, gives the automaton state and the counters of the whole run, and the assertion at the end of a long message held on the way exactly if the check on the decoded symbols says so. |
| `InputBuffer.InputBuf.Grow` | agent/tcf/framework/inputbuf.c:292-309 | Doubling the ring keeps the unread bytes, the window and the positions. |
| `InputBuffer.InputBuf.ReadDone` | agent/tcf/framework/inputbuf.c:205-319 | After any completed read: the new fill state, counters, growth, the next request, a long message started only if the ring is full, nothing is counted and nothing can be read, a handler event posted exactly if a message was counted, and whether the assertion held. |
| `InputBuffer.InputBuf.GetMore` | agent/tcf/framework/inputbuf.c:74-182 | Every call, peeking or not, on any chunking of the stream, hands out exactly the next symbol of the pure decoding, or ends with everything decoded and end of file. At end of file it ends so exactly if all symbols were delivered, and leaves the window empty exactly if the end of the old one was at the fill pointer. |
| `InputBuffer.StaleWindow` | agent/tcf/framework/inputbuf.c:84-95 | The failing state: with the fill pointer wrapped to the start of the ring at end of file, a read leaves a window of bytes that were read before. |
| `InputBuffer.InputBuf.ReadStream` | agent/tcf/framework/channel_tcp.c:629-636 | The fast path through the window and the slow path hand out the next symbol of the decoding and consume it. |
| `InputBuffer.InputBuf.PeekStream` | agent/tcf/framework/channel_tcp.c:638-645 | Peeking hands out the same symbol and consumes nothing. |
| `InputBuffer.InputBuf.StartMessage` | agent/tcf/framework/inputbuf.c:321-333 | A handler is started exactly if a message is counted and the stream has not ended; with nothing counted, as after a flush, the event does nothing. |
| `InputBuffer.EofHidesMessage` | agent/tcf/framework/inputbuf.c:321-333 | A run in which a complete message is waiting, the end of the stream is read, and the message is never started. |
| `InputBuffer.InputBuf.TwinParsersAgree` | agent/tcf/framework/inputbuf.c:74-182 | In every reachable state, running the automaton from the read-side state over the unread bytes gives the fill-side state, and the message count is the unread EOMs plus the two flags. |
| `InputBuffer.InputBuf.DeliveredIsPrefix` | agent/tcf/framework/inputbuf.c:74-319 | In every reachable state the symbols delivered, followed by the window, are a prefix of the pure decoding of the stream. |
| `InputBuffer.InputBuf.OfferedRegionIsFree` | agent/tcf/framework/inputbuf.c:51-72 | No position of the region offered for reading holds an unread byte. |
| `OutputQueues.OutputQueue.Add` | agent/tcf/framework/outputbuf.c:87-118 | Bytes are appended to the last buffer, but never to the one in flight, then to new buffers; acknowledged plus unsent bytes are all bytes added, in order. |
| `OutputQueues.OutputQueue.AddObuf` | agent/tcf/framework/outputbuf.c:66-85 | A whole buffer is queued or merged with the last waiting one, with the same conservation, and one request is outstanding exactly if the queue is not empty. |
| `OutputQueues.OutputQueue.Done` | agent/tcf/framework/outputbuf.c:120-143 | A partial or full write acknowledges exactly the written prefix and posts the request for the rest; an error empties the queue. |
| `OutputQueues.UnsentWritten` | agent/tcf/framework/outputbuf.c:120-143 | Writing part of the head buffer moves just those bytes out of the unsent ones. |
| `TcpOutputs.HeaderRead` | agent/tcf/framework/channel_tcp.c:406-437 | The 14- or 21-bit length patched into a block header is read back exactly by the automaton. |
| `TcpOutputs.EncodeBlock` | agent/tcf/framework/channel_tcp.c:406-437 | A patched header and its body append just the body to what the bytes encode. |
| `TcpOutputs.TcpOutput.Flush` | agent/tcf/framework/channel_tcp.c:354-390 | A flush hands the buffer to the queue with no block open, so that no block or header straddles it. |
| `TcpOutputs.TcpOutput.BlockStart` | agent/tcf/framework/channel_tcp.c:406-415 | Opening a block reserves the header and leaves what is written so far encoded. |
| `TcpOutputs.TcpOutput.BlockEnd` | agent/tcf/framework/channel_tcp.c:417-437 | Closing a block patches its exact length, or takes an empty block back. |
| `TcpOutputs.TcpOutput.Write` | agent/tcf/framework/channel_tcp.c:439-468 | The encoder makes the symbols encoded grow by just that symbol: into a block exactly if blocks are accepted, it is a data byte and more than 32 bytes are left; else as its own bytes behind the text, or behind the block it closes; the buffer is flushed only if it is full. |
| `TcpOutputs.TcpOutput.WrittenBytes` | agent/tcf/framework/channel_tcp.c:439-468 | While the peer has never announced that it accepts blocks, what was flushed and what is in the buffer are exactly the bytes of the symbols, one by one, and no block is open. |
| `TcpOutputs.TcpOutput.SetZeroCopy` | agent/tcf/framework/protocol.c:613-625 | Blocks are accepted from the time the peer announces it. |
| `TcpOutputs.WriteMessage` | agent/tcf/framework/channel_tcp.c:439-468 | A run: the message "a" on a new channel is the bytes 97, 3, 1. |
| `TcpOutputs.TcpOutput.WriteStream` | agent/tcf/framework/streams.c:39-42 | So does the stream function, which stores the byte directly, into a block only if one is open, or calls the encoder. |
| `TcpOutputs.TcpOutput.WriteBlock` | agent/tcf/framework/channel_tcp.c:470-504 | A block of bytes of any size, through any number of flushes, appends just those bytes. |
| `TcpOutputs.TcpOutput.WriteChar` | agent/tcf/framework/streams.c:52-78 | One step of the string loop, the direct store or the call of the encoder, appends just that character. |
| `TcpOutputs.TcpOutput.WriteString` | agent/tcf/framework/streams.c:52-78 | The direct copy of runs of a string appends just the string. |
| `TcpOutputs.TcpOutput.WriteStringz` | agent/tcf/framework/streams.c:80-106 | The string and its terminating zero are appended. |
| `TcpOutputs.TcpOutput.WriteDone` | agent/tcf/framework/channel_tcp.c:283-298 | A completed or failed write changes nothing of what was encoded. |
| `TcpOutputs.TcpOutput.WrittenDecodes` | agent/tcf/framework/channel_tcp.c:354-504 | With no block open, the queued and buffered bytes decode to exactly the symbols written, and stop outside any escape sequence. |
| `TcpOutputs.TcpOutput.AckedIsPrefix` | agent/tcf/framework/channel_tcp.c:354-504 | What the socket acknowledged decodes to a prefix of the symbols written, even with a block open. |
| `Channels.ReadIsPrefixOfWritten` | agent/tcf/framework/channel_tcp.c:439-645 | End to end, with both ends still running: while the bytes read so far are part of the bytes acknowledged so far, the symbols read at one end are a prefix of those written at the other. |
| `Channels.AllReadIsAllWritten` | agent/tcf/framework/channel_tcp.c:439-645 | End to end: once all is flushed and read, the symbols read are exactly those written. |
| `LocationPieces.GatherBits` | agent/tcf/framework/cpudefs.c:532-535 | The bits of a piece are appended to the value in the bit order of the value, all others kept. |
| `LocationPieces.ScatterBits` | agent/tcf/framework/cpudefs.c:594-605 | The bits of the value are stored into the piece, those beyond the value left unchanged, all others kept. |
| `LocationPieces.SwapBytes` | agent/tcf/framework/mdep.c:596-605 | In-place reversal of the bytes of a register. |
| `LocationPieces.Target.WritePieces` | agent/tcf/framework/cpudefs.c:542-622 | The pieces are written in order up to the first that cannot be; every storage bit is then what the last piece that has it was given, or as before. |
| `LocationPieces.Target.ReadPieces` | agent/tcf/framework/cpudefs.c:478-540 | The value is the concatenated bits of the pieces, or the first error. |
| `LocationPieces.CellsOneToOne` | agent/tcf/framework/cpudefs.c:500-535 | Bits of a piece and storage cells correspond one to one, through register widths, byte swaps and both bit orders. |
| `LocationPieces.FirstErrorAt` | agent/tcf/framework/cpudefs.c:500-508 | Which piece fails, and how, depends only on the pieces before it being good. |
| `LocationPieces.OutsideUnchanged` | agent/tcf/framework/cpudefs.c:542-622 | Storage bits outside the pieces are unchanged. |
| `LocationPieces.WrittenCell` | agent/tcf/framework/cpudefs.c:542-622 | After disjoint pieces are written each of their bits is the bit of the value meant for it. |
| `LocationPieces.RoundTripBits` | agent/tcf/framework/cpudefs.c:478-622 | Reading disjoint pieces after writing them gives the written bits; bits that the value did not have are as before. |
| `LocationPieces.RoundTrip` | agent/tcf/framework/cpudefs.c:478-622 | A value of the right size, padded with zeros, is read back byte for byte, for any mix of value and register byte order. |
| `LocationPieces.BitShifted` | agent/tcf/framework/cpudefs.c:476-480 | Bits are numbered from the least significant one. |
| `LocationPieces.OrdersMirror` | agent/tcf/framework/cpudefs.c:476-480 | The two orders of bits are those of a number written from either end. |
| `LocationPieces.SinglePiece` | agent/tcf/framework/cpudefs.c:482-545 | One piece gives a value of just its bits: the bit size if there is one, or all of its bytes. |
| `LocationPieces.MemoryBits` | agent/tcf/framework/cpudefs.c:482-545 | A range of bits of memory, bit by bit. |
| `LocationPieces.WholeMemory` | agent/tcf/framework/cpudefs.c:482-545 | Whole bytes of memory are read as they are. |
| `LocationPieces.WholeRegister` | agent/tcf/framework/cpudefs.c:482-545 | A whole register is read in the byte order asked for. |
| `LocationPieces.PieceErrors` | agent/tcf/framework/cpudefs.c:504-540 | When a piece cannot be read or written, and why. |
| `RegisterValues.ReadRegValue` | agent/tcf/framework/cpudefs.c:36-61 | The value of a register is the number of its bytes in its byte order; more than eight bytes are an error. |
| `RegisterValues.WriteRegValue` | agent/tcf/framework/cpudefs.c:63-84 | The register gets the lowest bytes of the value in its byte order, or is left alone. |
| `RegisterValues.ReadsWhatWasWritten` | agent/tcf/framework/cpudefs.c:36-84 | The bytes written stand for the value, or for what they have room for. |
| `RegisterValues.WritesWhatWasRead` | agent/tcf/framework/cpudefs.c:36-84 | The bytes of the number read are the original bytes. |
| `RegisterValues.RegisterHoldsValue` | agent/tcf/framework/cpudefs.c:36-84 | A register that was written, in either byte order, is read as the value, or as what it has room for of the value. |
| `RegisterValues.RegisterKeepsValue` | agent/tcf/framework/cpudefs.c:36-84 | Writing back what was read in the same byte order leaves the register as it was. |
| `NumberPrinting.StepUp` | agent/tcf/framework/mdep.c:1707-1719 | One step for a negative binary exponent: no 64-bit overflow, and the value is kept, or rounded within the relative error 2**-60; it is the step that the count of roundings is defined by. |
| `NumberPrinting.StepDown` | agent/tcf/framework/mdep.c:1720-1729 | One step for a positive binary exponent, likewise; adding five does not overflow, and rounding is followed by a doubling, so that the loop goes on. |
| `NumberPrinting.AlignedStep` | agent/tcf/framework/mdep.c:1720-1729 | Above 2**63 the fraction is a multiple of eight, which is why adding five is safe. |
| `NumberPrinting.Rescale` | agent/tcf/framework/mdep.c:1704-1730 | The loop that turns a binary exponent into a decimal one ends, its error grows by a bounded amount with each rounding step, and the number of those steps is that of `FirstLoop`. |
| `NumberPrinting.Shorten` | agent/tcf/framework/mdep.c:1732-1735 | The loop that shortens the fraction to 53 bits ends, with the error added up. |
| `NumberPrinting.StripZeros` | agent/tcf/framework/mdep.c:1737-1740 | Trailing zeros are dropped without changing the value. |
| `NumberPrinting.ToDecimal` | agent/tcf/framework/mdep.c:1704-1740 | For every finite non-zero double the decimal form is within relative error 2**-48, equal if no step of either loop rounds, and equal for whole numbers below 2**53. |
| `NumberPrinting.RoundsIff` | agent/tcf/framework/mdep.c:1704-1735 | The exact condition for a number with a fractional part: with the number in lowest terms m / 2**j, nothing is rounded if and only if m * 5**j is at most 2**53. |
| `NumberPrinting.WholeRoundsIff` | agent/tcf/framework/mdep.c:1704-1735 | The exact condition for a positive binary exponent: nothing is rounded if and only if the number is at most 2**53. |
| `NumberPrinting.SignificandValue` | agent/tcf/framework/mdep.c:1685-1703 | The significand and the exponent that are taken from a bit pattern stand for the value of the pattern. |
| `NumberPrinting.MagnitudeNext` | agent/tcf/framework/mdep.c:1685-1703 | What a pattern stands for: the next pattern is larger by one unit in the last place of its exponent field. |
| `NumberPrinting.MagnitudeZero` | agent/tcf/framework/mdep.c:1685-1703 | The value is zero just if the 63 low bits are. |
| `NumberPrinting.MagnitudeDoubles` | agent/tcf/framework/mdep.c:1685-1703 | The value doubles from one exponent field to the next. |
| `NumberPrinting.MagnitudeOne` | agent/tcf/framework/mdep.c:1685-1703 | The patterns of 1 and of 1.5. |
| `NumberPrinting.RoundsUnless` | agent/tcf/framework/mdep.c:1704-1735 | Nothing is rounded if and only if the number is a decimal fraction with a numerator of at most 2**53. |
| `NumberPrinting.DecimalUnique` | agent/tcf/framework/mdep.c:1737-1740 | Without trailing zeros a number has one decimal form. |
| `NumberPrinting.DoubleToStr` | agent/tcf/framework/mdep.c:1677-1763 | The text for every bit pattern: signs, zeros, infinities, NaN, and for other numbers digits and an exponent within relative error 2**-48 of the value of the pattern, which is printed exactly if it is a decimal fraction with a numerator of at most 2**53; it fits the buffer. |
| `NumberPrinting.PrintOneAndAHalf` | agent/tcf/framework/mdep.c:1677-1763 | A run: 0x3FF8000000000000 is printed as 15E-1. |
| `NumberPrinting.Print` | agent/tcf/framework/mdep.c:1742-1762 | The buffer filled from its end holds sign, digits and exponent. |
| `NumberScanning.ScanMantissa` | agent/tcf/framework/mdep.c:1625-1643 | The digit loop computes what the scanning specification says, without overflow. |
| `NumberScanning.ScanNumber` | agent/tcf/framework/mdep.c:1612-1657 | Sign, mantissa and exponent as specified. |
| `NumberScanning.DigitsScanned` | agent/tcf/framework/mdep.c:1622-1645 | The decimal digits of a number scan to that number. |
| `NumberScanning.ScanPrinted` | agent/tcf/framework/mdep.c:1622-1657 | Scanning what was printed recovers exactly the printed sign, mantissa and exponent. |
| `NumberScanning.NumberOfDigits` | agent/tcf/framework/mdep.c:1742-1762 | The digits printed for a number stand for it. |
| `NumberScanning.ScanText` | agent/tcf/framework/mdep.c:1622-1657 | Any number, with spaces, sign, point and exponent or without, is scanned to its end: its first 18 digits, leading zeros not counted, and an exponent that makes up for the digits behind the point and for those dropped. |
| `NumberScanning.Spaces` | agent/tcf/framework/mdep.c:1622-1657 | What is a space and what is a digit, by their codes. |
| `NumberScanning.ScanOneAndAHalf` | agent/tcf/framework/mdep.c:1622-1657 | The texts `1.5` and `+1.5e+2`. |
| `Base64.TablesAgree` | agent/tcf/framework/base64.c:29-57 | The two tables are each other's inverse on the alphabet, and nothing else is in it. |
| `Base64.Alphabet` | agent/tcf/framework/base64.c:27-36 | The alphabet, character by character. |
| `Base64.GroupBits` | agent/tcf/framework/base64.c:61-90 | A group has the bits of its bytes in its four sextets, with zeros and padding for bytes that are not there. |
| `Base64.EncodeConcat` | agent/tcf/framework/base64.c:61-99 | Whole groups can be encoded apart. |
| `Base64.WriteBase64` | agent/tcf/framework/base64.c:61-99 | The loop with its buffer of characters computes the encoding of section 4.3.2.4 of RFC 1421 and its length. |
| `Base64.ReadBase64` | agent/tcf/framework/base64.c:101-126 | The loop computes the decoding, with its stops and its errors, for every text and buffer size. |
| `Base64.UngroupGroup` | agent/tcf/framework/base64.c:101-126 | A group of one to three bytes decodes to its bytes whatever follows. |
| `Base64.DecodeEncoded` | agent/tcf/framework/base64.c:61-126 | Round trip: from an encoded text the decoder takes exactly the bytes its buffer has whole groups for. |
| `Base64.DecodeLeaves` | agent/tcf/framework/base64.c:61-126 | What the decoder leaves is the encoding of the bytes it left. |
| `JsonBinary.StreamEncoded` | agent/tcf/framework/json.c:701-763 | An encoded text in quotes streams exactly the data and ends at the quote. |
| `JsonBinary.DecodeFits` | agent/tcf/framework/json.c:722-748 | How one call of the decoder, with any buffer size and on any text, relates to the whole stream. |
| `JsonBinary.BinaryWriter.Start` | agent/tcf/framework/json.c:798-812 | Raw bytes after a size, or text after a quote, as the stream supports. |
| `JsonBinary.BinaryWriter.Data` | agent/tcf/framework/json.c:814-844 | Any piece appends just itself, at most two bytes being kept back. |
| `JsonBinary.BinaryWriter.End` | agent/tcf/framework/json.c:846-855 | What is on the stream is the image of all data written, however it was cut. |
| `JsonBinary.WritePieces` | agent/tcf/framework/json.c:798-855 | Any split of the data into pieces gives the one-shot text in quotes, or the size in parentheses and the bytes. |
| `JsonBinary.BinaryReader.Data` | agent/tcf/framework/json.c:701-753 | Any read returns the next bytes that are left, as many as asked for; it fails only in a malformed text and only if all that precedes the bad place was asked for. |
| `JsonBinary.ReadHead` | agent/tcf/framework/json.c:674-699 | The head of a value is read as the encoding and the size, or is an error. |
| `JsonBinary.HeadRead` | agent/tcf/framework/json.c:674-699 | The head of every written value is read back, with white space in front of it, up to its first byte. |
| `JsonBinary.NegativeHead` | agent/tcf/framework/json.c:421-440 | A size with a minus sign is taken in the arithmetic of an unsigned long. |
| `JsonBinary.HeadOfNullRead` | agent/tcf/framework/json.c:689-695 | The text null is read as a value of no bytes. |
| `JsonBinary.Spaces` | agent/tcf/framework/json.c:60 | What is white space and what is a digit. |
| `JsonBinary.BinaryReader.End` | agent/tcf/framework/json.c:755-763 | The value ends in good order exactly if no kept byte is left and the closing quote is next, white space aside; the quote is consumed. |
| `JsonBinary.ReadPieces` | agent/tcf/framework/json.c:674-763 | Reads of any sizes of a written value, in either encoding, return its data in order; it ends well exactly if all was asked for, and then what follows it is next. |
| `EventLoop.TimeCmp` | agent/tcf/framework/events.c:114-122 | The comparison orders normalised times by their nanoseconds. |
| `EventLoop.TimeAddUsec` | agent/tcf/framework/events.c:125-132 | Adding microseconds keeps a time normalised and adds just that much. |
| `EventLoop.Events.constructor` | agent/tcf/framework/events.c:306-323 | Each static node is set up once in the free queue. |
| `EventLoop.Events.AllocNode` | agent/tcf/framework/events.c:73-76 | A node is taken from its pool or from the allocator and is then nowhere else. |
| `EventLoop.Events.FreeNode` | agent/tcf/framework/events.c:83-91 | A static node goes back to the free queue, another one to the allocator. |
| `EventLoop.Events.InsertTimer` | agent/tcf/framework/events.c:134-214 | The search and insertion in the timer queue keep the history in order and each node in one place. |
| `EventLoop.Events.TimersSorted` | agent/tcf/framework/events.c:134-214 | The timer queue is sorted, ties in the order of posting. |
| `EventLoop.Events.PostEvent` | agent/tcf/framework/events.c:216-238 | An untimed event is appended to the event queue. |
| `EventLoop.Events.PostDelayed` | agent/tcf/framework/events.c:175-214 | A timed event is inserted for the time asked for; nothing else changes. |
| `EventLoop.Events.PostFromBackground` | agent/tcf/framework/events.c:134-173 | A background post is absorbed exactly if a cancel waits for it; otherwise it is inserted, and a waiting loop is signalled if it became the earliest timer. |
| `EventLoop.Events.CancelEvent` | agent/tcf/framework/events.c:240-300 | An event is cancelled exactly if one with the key is queued: the first one, untimed before timed; otherwise the cancel waits if asked to. |
| `EventLoop.Events.AtTop` | agent/tcf/framework/events.c:337-353 | The loop polls if it has nothing to do, after 100 untimed events, or after 100 milliseconds. |
| `EventLoop.Events.NoTimedLeft` | agent/tcf/framework/events.c:342-376 | Whenever the loop polls the event queue holds only untimed events. |
| `EventLoop.Events.ShareNodes` | agent/tcf/framework/events.c:346-352 | Free nodes are passed to the background pool until it has two; each node stays in one place. |
| `EventLoop.Events.PollRound` | agent/tcf/framework/events.c:354-391 | The batch moved is exactly the front of the timer queue that is due; what stays is not due; the loop waits only if there is nothing to dispatch, until the earliest timer. |
| `EventLoop.Events.Take` | agent/tcf/framework/events.c:394-408 | The first event is taken, the history grows by it, and only untimed events are counted. |
| `EventLoop.Events.DispatchOrder` | agent/tcf/framework/events.c:134-411 | Over any run: untimed events are dispatched in the order of posting; timed ones in order of time, ties in the order of posting, except behind one polled before they were posted; none before its time. |
| `EventLoop.Events.EachPostOnce` | agent/tcf/framework/events.c:134-411 | Over any run every post is exactly once dispatched, queued, cancelled or absorbed by a waiting cancel. |
| `EventLoop.Events.EachNodeOnce` | agent/tcf/framework/events.c:67-91 | In every state each static node is in exactly one of the five places, any other node in at most one. |
| `TmpAlloc.TmpPools.Alloc` | agent/tcf/framework/myalloc.c:83-115 | A new block is cut from the pool if there is room, or from a new pool; with its header it lies apart from all live blocks, and all of them stay as they are. |
| `TmpAlloc.TmpPools.LiveInside` | agent/tcf/framework/myalloc.c:83-115 | Every live block is aligned and lies, with its header, inside one live pool behind its link area. |
| `TmpAlloc.TmpPools.LiveApart` | agent/tcf/framework/myalloc.c:83-151 | Live blocks with their headers are pairwise disjoint. |
| `TmpAlloc.TmpPools.Realloc` | agent/tcf/framework/myalloc.c:121-151 | The old bytes are kept, and no other block changes; the block stays if it is large enough, grows in place if it is the last and there is room, and moves otherwise. |
| `TmpAlloc.TmpPools.NoUnderflow` | agent/tcf/framework/myalloc.c:128-138 | The position computed for growing in place is not negative, and it is met only by the last block of the pool. |
| `TmpAlloc.TmpPools.Gc` | agent/tcf/framework/myalloc.c:55-81 | Each retired pool is freed once, nothing stays live, and the running average and the size of the pool come out as in the source; the demand is what was used of all pools. |
| `TmpAlloc.AdaptedFits` | agent/tcf/framework/myalloc.c:57-73 | After a collection the pool has room for the demand, up to the largest size, and at most twice that or the least size; the same demand does not change it again. |
| `TmpAlloc.TmpPools.GcEvent` | agent/tcf/framework/myalloc.c:50-53 | The posted collection takes back everything. |
| `ContextQuery.PlaceNext` | agent/tcf/services/contextquery.c:294-318 | Placements of one part more: a deep part at or below its predecessor, a plain part on a child of it. |
| `ContextQuery.Match` | agent/tcf/services/contextquery.c:294-318 | The matcher accepts exactly if the parts can be placed on the ancestor path. |
| `ContextQuery.Run` | agent/tcf/services/contextquery.c:328-331 | A whole query, with the two special cases of no parts. |
| `ContextQuery.SlashBeforeDeep` | agent/tcf/services/contextquery.c:294-304 | A leading slash before a deep first part changes nothing. |
| `ContextQuery.DeepTwice` | agent/tcf/services/contextquery.c:294-304 | Two deep parts in a row match just what one does. |
| `ContextQuery.DeepAlone` | agent/tcf/services/contextquery.c:294-304 | The other properties of a deep part are ignored: without them every query matches the same. |
| `QuerySyntax.ParseWildcard` | agent/tcf/services/contextquery.c:66-79 | The loop computes the wildcard at the start of the text, or an error. |
| `QuerySyntax.WildcardRead` | agent/tcf/services/contextquery.c:66-79 | A wildcard is one or two asterisks with a slash or the end behind them. |
| `QuerySyntax.ParseNumber` | agent/tcf/services/contextquery.c:81-94 | The loop computes the number at the start of the text, or an error. |
| `QuerySyntax.NumberRead` | agent/tcf/services/contextquery.c:81-94 | A number is digits with a comma, a slash or the end behind them. |
| `QuerySyntax.NumberWritten` | agent/tcf/services/contextquery.c:81-94 | Every such text is read as that number. |
| `QuerySyntax.ParseSymbol` | agent/tcf/services/contextquery.c:96-119 | The loop computes the unquoted string at the start of the text, or an error. |
| `QuerySyntax.Characters` | agent/tcf/services/contextquery.c:96-119 | The characters of an unquoted string, the digits, and those that end a string, by their codes. |
| `QuerySyntax.SymbolRead` | agent/tcf/services/contextquery.c:96-119 | An unquoted string is letters, digits and underscores with something behind it that can end it. |
| `QuerySyntax.SymbolWritten` | agent/tcf/services/contextquery.c:96-119 | Every such text is read as that string. |
| `QuerySyntax.ParseQuoted` | agent/tcf/services/contextquery.c:121-145 | The loop computes the quoted string at the start of the text, or an error. |
| `QuerySyntax.QuotedRead` | agent/tcf/services/contextquery.c:121-145 | What is read as a quoted string is the escaped form of its result, up to the closing quote. |
| `QuerySyntax.QuotedWritten` | agent/tcf/services/contextquery.c:121-145 | Every string without NUL is read back from its escaped form. |
| `QuerySyntax.ParseProperty` | agent/tcf/services/contextquery.c:176-205 | A property with or without a name, or an error. |
| `QuerySyntax.ItemShorter` | agent/tcf/services/contextquery.c:227-238 | Every item takes something of the text, so that the parser ends. |
| `QuerySyntax.ParseContextQuery` | agent/tcf/services/contextquery.c:207-265 | The whole parser computes what the syntax says, and on an error leaves the parts that were complete. |
| `QuerySyntax.PieceWritten` | agent/tcf/services/contextquery.c:176-238 | A wildcard or a property, its strings quoted or not, is read as what it means wherever it may stand. |
| `QuerySyntax.PieceRead` | agent/tcf/services/contextquery.c:176-238 | What is read as a wildcard or a property is the spelling of one, and what is behind it may follow it. |
| `QuerySyntax.StepsParsed` | agent/tcf/services/contextquery.c:207-265 | Every text of the grammar parses, and to the parts that it stands for. |
| `QuerySyntax.StepsRead` | agent/tcf/services/contextquery.c:207-265 | Every text that parses is one of the grammar. |
| `QuerySyntax.ParseIff` | agent/tcf/services/contextquery.c:207-265 | The parser accepts exactly the texts of the grammar, in which quotes are needed only where a string has other characters and a comma may be missing behind a quote, and gives the query that each one stands for. |
| `QuerySyntax.PartWritten` | agent/tcf/services/contextquery.c:207-265 | The writing of a part, its last property last, is a text of the grammar that stands for just that part. |
| `QuerySyntax.RoundTrip` | agent/tcf/services/contextquery.c:207-265 | Every query, with any names and values, can be written, with quotes only where they are needed, so that parsing gives it back. |
| `QuerySyntax.DeepWithProperty` | agent/tcf/services/contextquery.c:207-265 | The text `x=1,**` parses to a deep part with another property. |
| `Replies.ReplyTable.FindReply` | agent/tcf/framework/protocol.c:180-191 | A command is found exactly if it is outstanding on the channel with that token. |
| `Replies.ReplyTable.NextToken` | agent/tcf/framework/protocol.c:452-456 | The search for a token ends, even when the counter wraps around, with one that is not outstanding on the channel; it is the counter itself if that is free. |
| `Replies.ReplyTable.Send` | agent/tcf/framework/protocol.c:441-468 | A command waits in the table under a fresh token, or fails by an event if the channel is not open; it is doomed exactly if it falls into the chain that a search after a disconnect holds by its head. |
| `Replies.ReplyTable.DispatchFailed` | agent/tcf/framework/protocol.c:433-439 | The event for a failed command calls its handler. |
| `Replies.ReplyTable.HandleReply` | agent/tcf/framework/protocol.c:259-305 | Progress leaves the table as it is; a final reply takes out just its command and calls its handler. |
| `Replies.ReplyTable.Walk` | agent/tcf/framework/protocol.c:687-693 | The search after a close misses no command of the channel; after a disconnect none is left at its end. |
| `Replies.ReplyTable.AfterHandler` | agent/tcf/framework/protocol.c:694-718 | What a returned handler leaves of the chain, and which commands are lost. |
| `Replies.LoseReply` | agent/tcf/framework/protocol.c:667-720 | The failing input, as a run: the handler of the first command of a chain, called because its channel is disconnected, sends a command that falls into the same chain; it is lost and never called. |
| `Replies.ReplyTable.TokensDistinct` | agent/tcf/framework/protocol.c:452-466 | On each channel the tokens of outstanding commands are pairwise distinct. |
| `Replies.ReplyTable.CalledAtMostOnce` | agent/tcf/framework/protocol.c:259-305 | No handler is called twice with a final result, redirects included. |
| `Replies.ReplyTable.CalledOnDisconnect` | agent/tcf/framework/protocol.c:667-720 | Once the search after a disconnect is over, a command with a handler that was sent on the channel has been called or will be by an event, exactly once, if and only if it was not doomed when it was sent; if it was, it is lost. |
| `ChannelLife.ChannelTcp.DeletedIff` | agent/tcf/framework/channel_tcp.c:222-272 | In every reachable state the channel has been deleted, once, exactly if it is closed, its reads have ended, no write or flush is pending and no client holds a lock. |
| `ChannelLife.ChannelTcp.DropLock` | agent/tcf/framework/channel_tcp.c:262-272 | Dropping a lock deletes the channel only if it was the last, and what deletion asserts then holds. |
| `ChannelLife.ChannelTcp.Unlock` | agent/tcf/framework/channel_tcp.c:262-272 | A client's unlock deletes the channel exactly if nothing else holds it. |
| `ChannelLife.ChannelTcp.Flush` | agent/tcf/framework/channel_tcp.c:354-390 | A flush adds one buffer to the queue, or none if it fits into the last one waiting; it posts a write, with a lock for it, exactly if the queue was empty, and drops the output of a closed or broken channel. |
| `ChannelLife.ChannelTcp.WriteStream` | agent/tcf/framework/channel_tcp.c:439-468 | An end of message posts at most two lazy flushes, with one lock between them. |
| `ChannelLife.ChannelTcp.FlushEvent` | agent/tcf/framework/channel_tcp.c:392-404 | The last posted flush event flushes and unlocks; an earlier one flushes only if much is waiting. |
| `ChannelLife.ChannelTcp.DoneWriteRequest` | agent/tcf/framework/channel_tcp.c:283-298 | A completed write posts the next before it drops its lock; the socket is shut down for writing once, when the queue of a closed channel is empty. |
| `ChannelLife.ChannelTcp.ReadDone` | agent/tcf/framework/channel_tcp.c:740-781 | After the close reads go on until one returns nothing, which drops the lock of the chain. |
| `ChannelLife.ChannelTcp.SendEofAndClose` | agent/tcf/framework/channel_tcp.c:647-668 | The close drops messages, writes the end of the stream, the error and an end of message, and makes sure of a read; without a write error a write is then under way and the socket is not yet shut down. A second close does nothing. |
| `ChannelLife.ChannelTcp.HandleChannelMsg` | agent/tcf/framework/channel_tcp.c:679-710 | The message event finds the channel alive, and leaves no second one posted. |
| `CacheClients.Caches.Enter` | agent/tcf/framework/cache.c:112-128 | A new transaction gets the next id, which is never 0, and its client is run. |
| `CacheClients.Caches.IdsUnique` | agent/tcf/framework/cache.c:112-128 | Transactions have different ids unless the counter has gone round between them. |
| `CacheClients.Caches.Wait` | agent/tcf/framework/cache.c:139-176 | The first miss of a run queues the client once, with its id, a lock and a copy of its arguments made at most once; further misses only count. |
| `CacheClients.Caches.Exit` | agent/tcf/framework/cache.c:130-136 | A client exits exactly if it has not missed. |
| `CacheClients.Caches.EndRun` | agent/tcf/framework/cache.c:90-113 | A run that is not queued again is over and its copy is freed; the lock of the entry is dropped last. |
| `CacheClients.Caches.Notify` | agent/tcf/framework/cache.c:178-196 | All waiting clients of the cache are taken, in order, and none other. |
| `CacheClients.Caches.NotifyLater` | agent/tcf/framework/cache.c:209-226 | The same by an event, also from within a client. |
| `CacheClients.Caches.NotifyEvent` | agent/tcf/framework/cache.c:198-207 | The posted batch is run. |
| `CacheClients.Caches.RunNext` | agent/tcf/framework/cache.c:188-195 | A client is run again with the id and arguments it had. |
| `CacheClients.Caches.WaitsOnce` | agent/tcf/framework/cache.c:90-226 | An unfinished transaction that is not running is in exactly one wait list or batch, once. |
| `CacheClients.Caches.ChannelLocked` | agent/tcf/framework/cache.c:90-226 | A channel is locked by cache clients exactly while a client of it is on a wait list, in a posted or running notification, or being run again. |
| `CacheClients.Caches.FreedOnce` | agent/tcf/framework/cache.c:90-176 | A copy of arguments is freed exactly once, when its transaction is over. |
| `WorkerPool.Pool.Post` | agent/tcf/framework/asyncreq.c:570-621 | A request goes to the first idle worker, which is signalled, or to a new worker, or is deferred to one. |
| `WorkerPool.Pool.AddDeferred` | agent/tcf/framework/asyncreq.c:553-559 | The deferred request gets its worker. |
| `WorkerPool.Pool.Complete` | agent/tcf/framework/asyncreq.c:519-531 | A worker posts the done event of its request once and waits, unless 32 are idle or a shutdown is pending. |
| `WorkerPool.Pool.WakeUp` | agent/tcf/framework/asyncreq.c:526-534 | A woken worker goes on only with something to do; a spurious wake-up changes nothing. |
| `WorkerPool.Pool.TriggerShutdown` | agent/tcf/framework/asyncreq.c:71-82 | All idle workers, and only they, are told to exit and signalled. |
| `WorkerPool.Pool.WorkerExit` | agent/tcf/framework/asyncreq.c:87-97 | The count of running workers is that of workers not joined; the pool has stopped exactly when none is left. |
| `WorkerPool.Pool.OneWorkerOneEvent` | agent/tcf/framework/asyncreq.c:515-621 | In every interleaving no request is with two workers or both with a worker and done. |
| `WorkerPool.Pool.AllDone` | agent/tcf/framework/asyncreq.c:515-621 | When all workers are idle or gone and nothing is deferred every request was done, once. |

## Left out

- Splicing of files into a channel, SSL, the variant without an output queue, and the reuse of output buffers.
- Behaviour after EOS or an invalid escape sequence on the read side, handlers that read past the end of
  their message, and reads by clients after the close.
- InputBuffer.InputBuf.GetMore: when the end of file is met in the same call in which the buffer grew, nothing is said of the end of the window.
- The width of the block length on the read side: lengths are unbounded here, which differs from the code from 2**28 on.
- Flush events inside an open binary block; the code asserts that there are none.
- Output buffers and retired pools are values in sequences, not linked nodes; the order is kept, sharing is not modelled.
- Failures of register and memory access other than out of range, and the `implicit_pointer` and
  `optimized_away` pieces beyond the error they give.
- The operators of location expressions.
- Floating-point scaling in `str_to_double`.
- NumberScanning.ScanNumber: the exponent is unbounded, so overflow of an `int` exponent is not modelled.
- All JSON values other than binary ones.
- JsonBinary.BinaryReader.Data: in a malformed text a read of exactly the bytes before the bad place may fail or not, because the code reads one group ahead in some alignments only.
- Failing system calls of the event loop, `usleep` for congestion, tracing.
- An event loop entered again from one of its handlers.
- Replies.ReplyTable.AfterHandler: handlers called while a channel is closed send commands here, but do not close further channels.
- Commands that a peer sends, events, and exceptions of handlers; they do not touch the reply table.
- Message handlers and event handlers removed in `channel_closed`.
- ChannelLife.ChannelTcp.WriteStream: binary blocks are left to the encoder; here only the fill of the buffer counts.
- Notification of cache clients from within a client at once, cache listeners, and the timer that reports stalled caches.
- The timer thread, POSIX asynchronous I/O, and what requests do while a worker has them.
- The comparators of context queries, which are a parameter, and the messages of syntax errors.
- TmpAlloc.TmpPools.Alloc: sizes are unbounded, so overflow of sums of sizes is not modelled; the system allocator is assumed to give aligned regions apart from all others.
- Lua bindings, services, discovery, plugins, command line and main programs.
