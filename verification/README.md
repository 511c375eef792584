# Verification of the Armada 3720 secure firmware

The WTMI firmware of the Armada 3720 secure processor is mostly register
accesses.  Seven of its parts are algorithms in their own right; this project
models them in Dafny and proves what they are for.

- **The DEFLATE decoder** (`wtmi/compressed`).  `Rfc1951` is a decoder on lists
  of bits, one step at a time, read off sections 3.2.3 to 3.2.7 of RFC 1951; it
  knows nothing of tables, accumulators, windows or buffers.  It takes the
  `Standard` rules or the `Firmware`'s, which depart from them in two places.
  `Canonical` draws the canonical codes of section 3.2.2 as intervals of points,
  `DecodeTable` says when a two-level table decodes such a code, `InfTrees` is
  the table builder, and `TableSize` bounds the space it takes.  `Inflate` is the
  class of the resumable decoder, with the bit accumulator, the window and the
  two decoding paths, field by field; `InflateSpec`, `BitStream` and
  `InflateState` hold the facts about the reference, the stream and the fields
  that it uses.  Its methods keep two things: the bits used, followed by those
  held in the accumulator and the bytes unread, are the stream; and what the
  reference makes of the rest of the stream from here on (`Future`) never
  changes.  `InflateMore` proves that decoding goes on, when more input comes
  in, as if all of it had been there; `Departures` compares the firmware's
  reading with the standard's.  `InflateRuns` draws the conclusions, for every
  byte sequence, valid or not: what one call puts out and returns, and how much
  any sequence of calls has put out after each of them.  `Deflate` is an encoder
  (stored blocks, fixed codes, codes of the block's own sent by any code length
  code and with any runs) that the reference decoder inverts; `Witnesses` uses
  it to build two streams at the edge, and `Samples` to decode two short streams
  given byte by byte.
- **Division by multiplication** (`Div64`): `do_div` is exact for every dividend
  and every divisor, by all three regimes of the reciprocal.
- **The mailbox queue** (`Mailbox`): a state machine in which the interrupt
  handler may run between any two steps of the main loop, an invariant over all
  its runs, and a class whose methods take exactly these steps; a command is
  accepted exactly when it finds room and a handler.
- **The fuse store** (`Secded`, `Efuse`): the code has distance four; writes
  never clear a fuse; check bytes land in their own places; with hardware that
  does not fail, a write is refused exactly for what is locked, masked or taken.
- **The entropy buffers** (`Ebg`): circular buffers are FIFO queues, and the
  random stream is handed out without loss, repetition or reordering; entropy
  read at once is what was queued and then what the generator delivers.
- **The U-Boot environment** (`UbootEnv`): scanning 64 KiB through a window of
  8 KiB is the same as parsing the whole text; what is read of a written
  environment is what was written first for the name.
- **Arithmetic kernels** (`Crc32`, `Adler32`, `Numbers`, `BigNum`).

`Types` and `Bits` hold the integer types, and shifts, masks and bit strings
over natural numbers.

Where the C code updates things in place, so does the model: classes with the
C structures' fields, arrays for buffers and tables, loops for loops.  Addition
and multiplication that can wrap are reduced explicitly (`Wrap`, `Add`, `UAdd`,
`USub`), or their operands are bounded by types (`u8`, `u16`) that Dafny checks.
What hardware returns is nondeterministic: fuse reads may time out and show
anything of a masked row, programming sets some subset of the requested fuses,
the entropy generator may have nothing yet.  Ghost fields record what it did:
how often the fuse hardware has failed, and which values were delivered.

## What the proofs say about the code

- `inflate_table` never returns 1 to `inflate`: the space check against
  `ENOUGH`, of which the source says that sufficiency "has not been proven
  exhaustively", never fails for the tables that `inflate` asks for.  A table
  with b root bits asked for and n symbols takes at most
  max(2^b, n) + n + 2^(15 - b) entries (`TableSize.SpaceBound`), which is at
  most 864 where 1456 are allowed (`InflateState.TableSpaces`).
- `inflate` refuses a block whose header gives lengths for 31 or 32 distance
  symbols (`inflate.c`, lines 611 to 617).  The standard allows these: only the
  symbols 30 and 31 may not occur in the data.  A stream that RFC 1951 accepts
  is decoded if and only if no block header is of this kind; otherwise it ends
  in `Z_DATA_ERROR` with exactly the output up to that header
  (`InflateRuns.InflateAccepted`, `Departures.AcceptedStreams`).
  `Witnesses.WideStream` is such a stream.
- The 16-bit copy of `inflate_fast` reads one byte before the output buffer
  exactly when the distance is 1, the call has put out exactly one byte, and
  the buffer's address is odd (`Inflate.Inflater.CopyDirect`).  The byte is
  masked out, so the output does not depend on it.  For a whole call this
  happens if and only if the address is odd, there are 259 bytes of space, and
  with the first byte put out the stream goes on with a copy from distance 1 and
  48 bits or more to read (`Inflate.Inflater.Inflate`); with an even address it
  never does.  `InflateRuns.StrayingCall` is a call that does.
- Should `inflate_fast` be entered with eight or more bits held, after a call
  that ended inside a code, it would still give back no bytes of an earlier
  call, because such bits hold no whole codeword
  (`Inflate.Inflater.TakeSettles`).  Its own comment rules such entries out.
- An empty code length code is decoded as one-bit symbols 0, because the
  CODELENS case does not look at `op`.  The standard rejects the stream there;
  the firmware puts out nothing more and rejects it at the first bit after the
  lengths, if there is one (`Departures.CodelessRuns`).
- The firmware's `crc32` computes the CRC for exactly those addresses and
  lengths that satisfy `Crc32.Served`; for others its tail loop restarts at the
  beginning of the words, or its length wraps.  The environment check keeps to
  these.
- In `efuse_write_row_with_ecc_lock` the loop over the rows that share a row of
  check bytes reads that row instead of the row at hand, and the result is
  compared with 45 although the loop stops at 44; so the row of check bytes is
  never locked (`Efuse.Fuses.ScanLocks`).
- `bn_addmod` drops the carry out of word 16: it is exact if and only if the
  sum stays below 2^544 or the modulus divides 2^544 (`BigNum.AddModExact`).
- A printed number reads back if and only if it was printed without a sign,
  without blanks and without the prefix of base 2 (`Numbers.ReadsBack`).

## Model
| member | source | states |
|---|---|---|
| `Canonical.MatchesIsInterval` | wtmi/compressed/inftrees.c:71-100 | a codeword starts the held bits exactly when their reversal lies in the codeword's interval of points |
| `Canonical.MatchesUnique` | wtmi/compressed/inftrees.c:71-100 | canonical codes are prefix-free unless over-subscribed |
| `Canonical.CompleteCovers` | wtmi/compressed/inftrees.c:71-100 | a complete code leaves no bit pattern undecodable |
| `Canonical.SymbolOfMatch` | wtmi/compressed/inftrees.c:71-100 | the reference symbol of a bit string is the one whose reversed codeword is in the low bits, once all its bits are there |
| `Canonical.FirstCodeIsEnd` | wtmi/compressed/inftrees.c:71-100 | the first code of each length by step 2 of section 3.2.2 of RFC 1951 is where the shorter codes end |
| `DecodeTable.EnterStep` | wtmi/compressed/inftrees.c:212-235 | entering a symbol, replicated, keeps every symbol entered before and adds this one |
| `DecodeTable.OpenStep` | wtmi/compressed/inftrees.c:255-284 | linking a fresh root index to a fresh sub-table keeps every entry |
| `DecodeTable.EnteredFinds` | wtmi/compressed/inftrees.c:212-235 | two-level lookup of any bits that start with an entered codeword finds its symbol and its length |
| `TableSize.SubCount` | wtmi/compressed/inftrees.c:264-272 | a sub-table holds as many codes as its shortest suggests, and the next one starts no shorter than it ended |
| `TableSize.SpaceBound` | wtmi/compressed/inftrees.c:164-169 | the space check never fails: entries used are at most the root table, the symbols and one sub-table |
| `InfTrees.CountLengths` | wtmi/compressed/inftrees.c:102-106 | how many symbols have each length |
| `InfTrees.KraftLeft` | wtmi/compressed/inftrees.c:126-134 | negative exactly for over-subscribed sets, otherwise the exact number of unused longest codes |
| `InfTrees.SortSymbols` | wtmi/compressed/inftrees.c:136-143 | symbols sorted by length, then by value |
| `InfTrees.Replicate` | wtmi/compressed/inftrees.c:228-235 | all indices with the given low bits, and no others, get the entry |
| `InfTrees.BackIncrement` | wtmi/compressed/inftrees.c:237-246 | the reversed code becomes the reversal of its successor, wrapping to zero |
| `InfTrees.NextCursor` | wtmi/compressed/inftrees.c:248-253 | the next symbol in order, its length and its reversed code; after the last one the end of the code |
| `InfTrees.SubTableBits` | wtmi/compressed/inftrees.c:264-272 | the least size at which the codes from here on fill the sub-table |
| `InfTrees.PutSymbol` | wtmi/compressed/inftrees.c:212-235 | one more symbol in the table, nothing else changed |
| `InfTrees.OpenSub` | wtmi/compressed/inftrees.c:255-284 | a sub-table of the right size, linked, within the space; the check tells when it is exceeded |
| `InfTrees.FillCodes` | wtmi/compressed/inftrees.c:196-285 | all symbols entered, in the space bounded above; the final code is the end of the code |
| `InfTrees.FillRest` | wtmi/compressed/inftrees.c:287-319 | a lone one-bit code gets its invalid marker, a complete code none |
| `InfTrees.CompleteDecodes` | wtmi/compressed/inftrees.c:212-319 | a table with all symbols of a complete code entered decodes it |
| `InfTrees.LoneDecodes` | wtmi/compressed/inftrees.c:287-319 | so does the table of a lone one-bit code, with unused patterns marked invalid |
| `InfTrees.InflateTable` | wtmi/compressed/inftrees.c:32-325 | for every vector of lengths up to 15: rejects exactly over-subscribed sets and incomplete ones other than a lone one-bit code (not for CODES); the empty set gives an error table; otherwise two-level lookup yields each codeword's symbol and length and the invalid marker for all other patterns; only its own stretch of the table changes |
| `FixedTables.BuildFixed` | wtmi/compressed/inflate.c:72-92 | tables that decode the fixed codes of section 3.2.6 of RFC 1951 |
| `FixedTables.FixedCodewords` | wtmi/compressed/inflate.c:72-92 | each codeword of the fixed codes is the one that section 3.2.6 lists |
| `InflateSpec.SymbolSettled` | wtmi/compressed/inflate.c:723-738 | with as many bits held as the entry found says, its symbol is the stream's |
| `InflateSpec.SymbolShort` | wtmi/compressed/inflate.c:723-727 | with fewer, no symbol of the stream is complete yet |
| `InflateSpec.LengthTable` | wtmi/compressed/inftrees.c:56-61 | the static tables of length bases and extra bits are those of section 3.2.5 of RFC 1951 |
| `InflateSpec.DistTable` | wtmi/compressed/inftrees.c:62-69 | likewise for distances |
| `InflateSpec.ElementsRest` | wtmi/compressed/inflate.c:716-842 | whole elements of a block do not change what the reading makes of the stream |
| `InflateSpec.RestGrows` | wtmi/compressed/inflate.c:322-325 | from any place in the stream, what is put out extends the output so far |
| `BitStream.MoreUnread` | wtmi/compressed/inflate.c:322-325 | more input goes to the end of the unread stream |
| `InflateMore.SymbolMore` | wtmi/compressed/inflate.c:723-738 | a symbol read, or the lack of one, stays so with more bits behind |
| `InflateMore.ReadMore` | wtmi/compressed/inflate.c:716-842 | an element read stays so with more bits behind, and one cut off goes on where it stopped |
| `InflateMore.DecodeMore` | wtmi/compressed/inflate.c:286-320 | decoding what there is and then, from where that stopped, the rest is decoding all of it, for whole bytes |
| `InflateMore.NextSound` | wtmi/compressed/inflate.c:353-891 | the decoder only ever holds sets of lengths that make a code |
| `Departures.HighBits` | wtmi/compressed/inflate.c:605-617 | the header refused is one whose HDIST bits are 30 or 31 |
| `Departures.FirstFound` | wtmi/compressed/inflate.c:603-620 | a state of a kind is found exactly when the run passes through one |
| `Departures.HighRejected` | wtmi/compressed/inflate.c:611-617 | at the first block header with lengths for 31 or 32 distance symbols the firmware gives up, with the output before it, where the standard goes on |
| `Departures.CodelessRuns` | wtmi/compressed/inflate.c:642-689 | with an empty code length code each bit is read as a length of zero; nothing more is put out or accepted, and the error shows with the first bit after the lengths |
| `Departures.LowAgrees` | wtmi/compressed/inflate.c:353-891 | without such a header the firmware agrees with the standard, but for an empty code length code cut short |
| `Departures.Compared` | wtmi/compressed/inflate.c:353-891 | any stream: what the firmware makes of it in terms of the standard |
| `Departures.AcceptedStreams` | wtmi/compressed/inflate.c:611-617 | of the streams that the standard accepts, the firmware decodes exactly those without such a header, and rejects the others with the output up to it |
| `Departures.HighLasts` | wtmi/compressed/inflate.c:611-617 | a header refused in the input so far is refused in all of it |
| `InflateSpec.CopyBackAdd` | wtmi/compressed/inflate.c:812-836 | an overlapping copy made in pieces is the whole copy |
| `InflateSpec.RestElement` | wtmi/compressed/inflate.c:716-842 | one element of a block, and what the reading makes of the rest; whether it was a copy that may read outside the buffers |
| `InflateSpec.OrderPlaces` | wtmi/compressed/inflate.c:340-341 | the order in which the lengths of the code length code are stored is that of section 3.2.7: 16, 17, 18, 0, then 8 up and 7 down in turn |
| `InflateSpec.UnorderedStored` | wtmi/compressed/inflate.c:621-628 | code length codes stored in that order, the rest zero, are the lengths by symbol: 16 to 18 and 0 sent first, 8 + i as number 4 + 2i, 7 - i as number 5 + 2i |
| `BitStream.PullStep` | wtmi/compressed/inflate.c:199-208 | pulling a byte into the accumulator leaves the stream as it is |
| `BitStream.DropStep` | wtmi/compressed/inflate.c:218-227 | the low bits of the accumulator are the front of the stream, and dropping them drops that |
| `BitStream.GiveBack` | wtmi/compressed/inffast.c:319-333 | handing back whole bytes leaves the stream as it is |
| `Inflate.Inflater.PullByte` | wtmi/compressed/inflate.c:199-208 | one byte of input into the accumulator, stream unchanged |
| `Inflate.Inflater.NeedBits` | wtmi/compressed/inflate.c:210-216 | enough bits, or all input used up; stream unchanged |
| `Inflate.Inflater.DropBits` | wtmi/compressed/inflate.c:218-227 | bits used are the stream's, and used bits ++ rest stays the stream |
| `Inflate.Inflater.ByteBits` | wtmi/compressed/inflate.c:229-234 | skips to a byte boundary of the stream |
| `Inflate.Inflater.FindSymbol` | wtmi/compressed/inflate.c:723-737 | both levels of lookup find the entry that the bits of the stream settle, or all input is used up |
| `Inflate.Inflater.DecodeSymbol` | wtmi/compressed/inflate.c:723-738 | takes exactly the codeword at the front of the stream, or stops without a whole codeword |
| `Inflate.Inflater.StepLen` | wtmi/compressed/inflate.c:723-758 | one symbol: literal, end of block, error or length base, as the reference reads it |
| `Inflate.Inflater.StepLenExt` | wtmi/compressed/inflate.c:759-766 | the extra bits of a length |
| `Inflate.Inflater.StepDist` | wtmi/compressed/inflate.c:767-791 | a distance symbol |
| `Inflate.Inflater.StepDistExt` | wtmi/compressed/inflate.c:792-811 | the extra bits of a distance, and the check against the output so far |
| `Inflate.Inflater.CheckDistance` | wtmi/compressed/inflate.c:805-809 | the check against whave and this call's output is the check against the whole output so far |
| `Inflate.Inflater.CopyPiece` | wtmi/compressed/inflate.c:814-834 | one stretch from window or output continues the overlapping copy from the whole output |
| `Inflate.Inflater.StepMatch` | wtmi/compressed/inflate.c:812-836 | puts out part of a match; the rest stays pending |
| `Inflate.Inflater.StepLit` | wtmi/compressed/inflate.c:837-842 | puts out a literal |
| `Inflate.Inflater.CopyDirect` | wtmi/compressed/inffast.c:255-291 | the 16-bit copy leaves the bytes of a byte-by-byte overlapping copy; it reads a stray byte exactly at distance 1, with one byte put out in this call, to an odd address |
| `Inflate.Inflater.AlignOut` | wtmi/compressed/inffast.c:259-265 | the byte that makes the address even |
| `Inflate.Inflater.CopyHalves` | wtmi/compressed/inffast.c:267-276 | distances above two, two bytes at a time |
| `Inflate.Inflater.CopyPattern` | wtmi/compressed/inffast.c:277-288 | distances one and two by a replicated pattern; the stray read exactly when one byte was put |
| `Inflate.Inflater.FastCopyWindow` | wtmi/compressed/inffast.c:202-254 | the three places where a match can start in the window all give the overlapping copy from the whole output |
| `Inflate.Inflater.FastCopy` | wtmi/compressed/inffast.c:195-292 | a match, or an error exactly when the distance exceeds the whole output; exactly when it reads a stray byte |
| `Inflate.Inflater.FastElement` | wtmi/compressed/inffast.c:129-317 | one round without bounds checks is one element of the reference; it reads a stray byte exactly if that is a copy from distance 1 of the only byte of this call, to an odd address |
| `Inflate.Inflater.FastTurn` | wtmi/compressed/inffast.c:127-317 | one more element of the run, and whether it strayed |
| `Inflate.Inflater.FastLoop` | wtmi/compressed/inffast.c:127-317 | the loop decodes whole elements, inside the available input and space; a stray byte is read exactly if the address is odd and one of them repeats the only byte of this call |
| `Inflate.Inflater.ReturnBytes` | wtmi/compressed/inffast.c:319-323 | unused bytes go back, fewer than eight bits stay, stream unchanged |
| `Inflate.Inflater.InflateFast` | wtmi/compressed/inffast.c:69-334 | n whole elements, from the same stream and output as the slow path, with fewer than 8 bits held after; a stray byte is read exactly as the n elements say |
| `Inflate.Inflater.SlowRounds` | wtmi/compressed/inflate.c:716-842 | n whole elements by the cases LEN to MATCH |
| `Inflate.Inflater.TakeSettles` | wtmi/compressed/inffast.c:129-139 | 15 bits settle a symbol, and bits left from earlier calls never hold a whole one |
| `InflateState.RoundsAgree` | wtmi/compressed/inffast.c:129-334 | after n elements the fast and the slow path agree in mode, output and, unless BAD, stream |
| `InflateState.RoundsRest` | wtmi/compressed/inffast.c:129-334 | n elements by either path keep what the reference makes of the rest |
| `InflateState.StrayStep` | wtmi/compressed/inffast.c:255-291 | an element either strays, and is gone from those to come, or leaves them as they are |
| `InflateState.FastLenOp` | wtmi/compressed/inffast.c:141-148 | the tests of the fast path on op mean what the reference makes of the symbol |
| `InflateState.FastDistOp` | wtmi/compressed/inffast.c:173-175 | likewise for distances |
| `InflateState.LenReach` | wtmi/compressed/inflate.c:739-758 | the tests of the slow path on op mean the same |
| `Inflate.Inflater.StepType` | wtmi/compressed/inflate.c:541-572 | block header, end of the stream at a byte boundary |
| `Inflate.Inflater.StepStored` | wtmi/compressed/inflate.c:573-585 | length of a stored block and its complement |
| `Inflate.Inflater.StepCopy` | wtmi/compressed/inflate.c:586-602 | bytes of a stored block |
| `Inflate.Inflater.StepTable` | wtmi/compressed/inflate.c:603-620 | counts of a dynamic block |
| `Inflate.Inflater.StepLenLens` | wtmi/compressed/inflate.c:621-641 | lengths of the code length code, each for the symbol that its place means, and its table |
| `Inflate.Inflater.TakeRepeat` | wtmi/compressed/inflate.c:654-688 | runs of lengths, or an error where the reference has one |
| `Inflate.Inflater.StepCodeLens` | wtmi/compressed/inflate.c:642-715 | all lengths, and the tables of both codes |
| `Inflate.Inflater.BuildBoth` | wtmi/compressed/inflate.c:694-713 | succeeds exactly for usable lengths, with tables that decode them; the tables do not overlap |
| `Inflate.Inflater.PassElement` | wtmi/compressed/inflate.c:716-842 | a pass of the slow cases never takes the element at which inflate_fast would stray |
| `Inflate.Inflater.Pass` | wtmi/compressed/inflate.c:353-891 | each pass keeps the stream, what the reading makes of it and whether this call strays, and makes progress or stops for want of input or space |
| `Inflate.Inflater.Loop` | wtmi/compressed/inflate.c:353-891 | terminates for every input, stopped for want of input or space or at the end; strays exactly as foretold |
| `Inflate.Inflater.UpdateWindow` | wtmi/compressed/inflate.c:94-140 | the window holds the last 32768 bytes of the whole output |
| `InflateState.WindowWrapped` | wtmi/compressed/inflate.c:126-134 | when new output goes round the end of the window |
| `InflateState.WindowSlice` | wtmi/compressed/inflate.c:815-824 | what MATCH reads from the window are the bytes at that distance |
| `Inflate.Inflater.Inflate` | wtmi/compressed/inflate.c:322-919 | one call: used bits ++ held bits ++ unread input stays the stream, what it decodes to stays the same, the output grows by what was put, nothing else is written; return code; a stray byte is read exactly if the address is odd, there are 259 bytes of space, and with one byte put out the stream goes on with a copy from distance 1 and six bytes to read |
| `Inflate.Inflater.constructor` | wtmi/compressed/inflate.c:8-65 | a new decoder, at the start of an empty stream |
| `Inflate.Inflater.Feed` | wtmi/compressed/inflate.c:286-320 | with more input the stream goes on, and decodes to what all of it decodes to |
| `Inflate.Inflater.Verdict` | wtmi/compressed/inflate.c:880-885 | between calls all that the input so far gives has been put out, and DONE and BAD say exactly how it ended; or the space is full, with more to come |
| `InflateState.TableSpaces` | wtmi/compressed/inflate.c:629-713 | the tables that inflate asks for stay far below the limit of the space check |
| `InflateRuns.InflateWhole` | wtmi/compressed/main.c:6-31 | for every byte sequence, one call puts out exactly what the firmware's reading of the format makes of it, up to an error or the end of the space; the return code for every case; nothing else is written; when a stray byte is read |
| `InflateRuns.InflateOnce` | wtmi/compressed/main.c:6-31 | the same in terms of RFC 1951, for every byte sequence: without a refused header output and Z_STREAM_END are exactly as it says, and Z_DATA_ERROR exactly when an error is reached; with one, the output ends there; an even address never strays |
| `InflateRuns.InflateAccepted` | wtmi/compressed/inflate.c:611-617 | a stream that RFC 1951 accepts, with enough space, ends in Z_STREAM_END with its output exactly when no block header has lengths for more than 30 distance symbols, otherwise in Z_DATA_ERROR with the output up to that header |
| `InflateRuns.InflateInCalls` | wtmi/compressed/inflate.c:286-320 | after any sequence of calls, with any split of input and output space, exactly the first Made bytes of the output have been put out, each call adding what fits of what the input by then gives; DONE and BAD exactly when that part is accepted or rejected and put out; an even address never strays |
| `InflateRuns.MadeStandard` | wtmi/compressed/inflate.c:286-320 | without a refused header that is the count by RFC 1951 |
| `InflateRuns.AllMade` | wtmi/compressed/inflate.c:286-320 | with space for everything after the last of the input, everything has been put out |
| `Witnesses.WideStream` | wtmi/compressed/inflate.c:611-617 | a stream with 31 distance code lengths, which RFC 1951 accepts and the firmware rejects |
| `Witnesses.StrayStream` | wtmi/compressed/inffast.c:277-288 | a stream with one byte, a copy of it from distance 1, and six bytes and more to read there |
| `InflateRuns.RefusingCall` | wtmi/compressed/inflate.c:611-617 | a call on the first of these ends in Z_DATA_ERROR with no output |
| `InflateRuns.StrayingCall` | wtmi/compressed/inffast.c:277-288 | a call on the second, with an odd address and 300 bytes of space, reads the byte before the buffer |
| `Samples.LetterStream` | wtmi/compressed/inflate.c:603-715 | thirteen given bytes, one block with codes of its own whose code length code gives 0 and 8 different lengths, are the letter A, by the standard and by the firmware |
| `Samples.StoredStream` | wtmi/compressed/inflate.c:573-602 | so are six given bytes, one stored block |
| `InflateRuns.LetterCall` | wtmi/compressed/main.c:6-31 | a call on the thirteen bytes ends in Z_STREAM_END with that one byte |
| `Deflate.TokenRead` | wtmi/compressed/inflate.c:716-842 | a literal or match written with any codes is read back |
| `Deflate.LengthCovered` | wtmi/compressed/inftrees.c:56-61 | every length from 3 to 258 can be written |
| `Deflate.DistCovered` | wtmi/compressed/inftrees.c:62-69 | every distance from 1 to 32768 can be written |
| `Deflate.BodyDecodes` | wtmi/compressed/inflate.c:716-842 | a block of tokens is read back |
| `Deflate.PlainDecodes` | wtmi/compressed/inflate.c:573-602 | a stored block, after any number of bits |
| `Deflate.SentDecodes` | wtmi/compressed/inflate.c:621-641 | any code length code, of which the first 4 to 19 lengths in the order of transmission are sent, is read back |
| `Deflate.ItemRead` | wtmi/compressed/inflate.c:645-688 | a length, or a run of earlier lengths or zeros, is read back |
| `Deflate.LengthsDecode` | wtmi/compressed/inflate.c:645-696 | so is any sequence of these |
| `Deflate.LengthsCovered` | wtmi/compressed/inflate.c:645-688 | all sets of lengths can be sent |
| `Deflate.CustomDecodes` | wtmi/compressed/inflate.c:603-715 | a block that sends its own codes, by any code length code and with any runs; up to 32 distance lengths by the standard and 30 by the firmware |
| `Deflate.CustomRefused` | wtmi/compressed/inflate.c:611-617 | the firmware stops at the header of one with more |
| `Deflate.EncodeDecodes` | wtmi/compressed/inflate.c:541-842 | decoding inverts encoding, for any sequence of blocks of all three kinds; the firmware up to the first block with more than 30 distance lengths |
| `Deflate.CompressedDecodes` | wtmi/compressed/inflate.c:541-842 | the same for the stream as bytes |
| `InflateRuns.Decompress` | wtmi/compressed/main.c:6-31 | round trip: one call restores whatever was encoded, or what comes before the first block with more than 30 distance lengths |
| `Div64.XProd64` | wtmi/div64.h:234-268 | ((bias ? m : 0) + m * n) >> 64, no carry lost, for all operands |
| `Div64.ByHalves` | wtmi/div64.h:150-160 | the same, looking for a carry in the cross products whether there can be one or not, as the test in line does |
| `Div64.CrossWord` | wtmi/div64.h:253-263 | the cross products: the first addition reaches at most the largest 64-bit number |
| `Div64.TestDecides` | wtmi/div64.h:150-160 | the test on one dividend decides for all of them |
| `Div64.TestFails` | wtmi/div64.h:169-181 | if the test fails, the floor with bias is close enough |
| `Div64.FloorBounds` | wtmi/div64.h:169-181 | multiplying by floor and adding it once is exact |
| `Div64.SpecialCase` | wtmi/div64.h:163-168 | exact when the odd part divides 2^64 - 1 |
| `Div64.BiasedCase` | wtmi/div64.h:169-181 | exact when the test fails |
| `Div64.PlainCase` | wtmi/div64.h:182-206 | exact when the test passes, after any reduction by common zeros |
| `Div64.ReductionIsTrailing` | wtmi/div64.h:188-203 | the reduction chosen shifts out only zeros of m |
| `Div64.TrailWithin` | wtmi/div64.h:197-203 | m ends in no more zeros than p, so p stays at least 1 |
| `Div64.ILog2Bounds` | wtmi/div64.h:47-117 | the position of the highest bit |
| `Div64.PowerOf2` | wtmi/div64.h:31-35 | true exactly for powers of two |
| `Div64.Reduce` | wtmi/div64.h:188-203 | the reduced fraction is exact for every dividend, with p at least 1 |
| `Div64.Sanitize` | wtmi/div64.h:162-206 | whichever regime is chosen, product and quotient give the exact result |
| `Div64.Div64Const32` | wtmi/div64.h:129-222 | n / b for every u64 and every u32 that is not a power of two |
| `Div64.DoDiv` | wtmi/div64.h:276-294 | quotient and remainder for every u64 and every nonzero u32 |
| `Mailbox.IrqSafe` | wtmi/mbox.c:102-139 | the interrupt step keeps the invariant |
| `Mailbox.MainSafe` | wtmi/mbox.c:62-95 | every step of the main loop keeps it |
| `Mailbox.RegisterSafe` | wtmi/mbox.c:152-160 | so does registering a handler |
| `Mailbox.RunIsSafe` | wtmi/mbox.c:62-139 | in every state of every interleaving: fill within 0 to 8, processed ++ queued = accepted in order, every queued command has a handler, no call to NULL |
| `Mailbox.FrontHasHandler` | wtmi/mbox.c:75-80 | the command being dispatched has a handler |
| `Mailbox.NotOverwritten` | wtmi/mbox.c:73-95 | no step overwrites the request being handled |
| `Mailbox.IrqAccepts` | wtmi/mbox.c:102-139 | a command that is there, finds room and has a handler is queued behind the others and accepted; otherwise nothing changes |
| `Mailbox.RegisterSets` | wtmi/mbox.c:152-160 | the slot of a command without a handler gets it, and every other slot keeps its own |
| `Mailbox.Mailbox.IrqHandler` | wtmi/mbox.c:102-139 | takes exactly the interrupt step: queue and accepted commands grow by the request exactly when it is there, finds room and has a handler |
| `Mailbox.Mailbox.RegisterCmd` | wtmi/mbox.c:152-160 | takes exactly the registration step, slot by slot |
| `Mailbox.Mailbox.ProcessCommands` | wtmi/mbox.c:62-95 | with interrupts coming in anywhere, ends with every accepted command processed |
| `Secded.SecdedEcc` | wtmi/efuse.c:71-95 | the eight parities of the masked data |
| `Secded.EccXor` | wtmi/efuse.c:71-95 | the check function is linear over exclusive or |
| `Secded.ColumnsDiffer` | wtmi/efuse.c:73-78 | no two data bits have the same column |
| `Secded.MinimumDistance` | wtmi/efuse.c:71-95 | different words differ in at least four places, data and check bits together |
| `Secded.SingleCorrectedDoubleDetected` | wtmi/efuse.c:71-95 | a single error is nearer to its codeword than to any other; a double error is within one of none |
| `Efuse.PlacementInjective` | wtmi/efuse.c:21-69 | no two rows share a check byte |
| `Efuse.PlacementInverse` | wtmi/efuse.c:21-69 | the placement can be inverted, and rows of check bytes have none |
| `Efuse.KeepsTransitive` | wtmi/efuse.c:349-471 | never clearing a bit, undoing a lock or changing a locked row composes over runs |
| `Efuse.Fuses.RawWrite` | wtmi/efuse.c:278-314 | some of the bits asked for are set on an unlocked row, nothing else; all of them exactly when the hardware does not fail |
| `Efuse.Fuses.WriteRowNoEcc` | wtmi/efuse.c:349-408 | success on an unmasked unlocked row means old or val, and locked if asked; refused exactly for a nonzero value on a locked row; anything else fails only if the hardware does |
| `Efuse.Fuses.WriteTries` | wtmi/efuse.c:365-387 | up to five attempts, each read back; it succeeds if the hardware does not fail, and gives up only after five failures |
| `Efuse.Fuses.WriteRowWithEccLock` | wtmi/efuse.c:410-471 | success means the row is old or val and locked, with its check byte in place, and all other rows untouched; refused, with nothing changed, exactly if the row is locked or masked, or its check byte is locked or there; with hardware that does not fail it succeeds otherwise, except over a check byte that cannot be seen and differs |
| `Efuse.ChecksAfterWrite` | wtmi/efuse.c:439-461 | then the row's check byte is that of its value, and every other row has the one it had |
| `Efuse.WriteSecureBuffer` | wtmi/efuse.c:473-495 | the nine rows of the key share two rows of check bytes: success means all are written and locked with their check bytes; with hardware that does not fail it comes exactly if no row is refused |
| `Efuse.Session` | wtmi/efuse.c:349-471 | over any run of writes, however the hardware fails, no bit is cleared and no locked row changes |
| `Ebg.TakeFront` | wtmi/ebg.c:115-118 | taking a stretch from the front and clearing it |
| `Ebg.PutBack` | wtmi/ebg.c:147-148 | adding a stretch at the end |
| `Ebg.CBuf.Pull` | wtmi/ebg.c:98-121 | takes exactly the oldest min(len, request) bytes, in order, round the end; cells outside the live region stay zero |
| `Ebg.CBuf.Push` | wtmi/ebg.c:128-151 | appends the longest prefix that fits; cells outside the live region stay zero |
| `Ebg.Generator.EbgRandSync` | wtmi/ebg.c:170-197 | exactly the bytes asked for: queued entropy first, then the values that the generator delivers meanwhile, in order, one byte at an odd address or at the end and otherwise low byte before high |
| `Ebg.Generator.FreshBytes` | wtmi/ebg.c:178-196 | those values, spread over the bytes |
| `Ebg.Generator.ParanoidRand64` | wtmi/ebg.c:225-244 | what is hashed are 512 such bytes |
| `Ebg.Generator.EbgProcess` | wtmi/ebg.c:155-168 | makes a block, of the 512 oldest bytes of entropy, exactly when these and room for it are there, and queues the two bytes of the one value that the generator delivers, if any; conservation |
| `Ebg.Generator.PushRest` | wtmi/ebg.c:260-264 | the leftover push is never truncated |
| `Ebg.Generator.ParanoidRand` | wtmi/ebg.c:246-265 | bytes handed out followed by bytes queued are the blocks made |
| `Ebg.Run` | wtmi/ebg.c:155-265 | over every run of both, each byte made is handed out or queued once and in order |
| `UbootEnv.CheckCrc` | wtmi/uboot-env.c:12-34 | the check in chunks is the CRC of the whole image against its first word: the number its four bytes spell, low byte first, is 2^32 - 1 less the CRC |
| `UbootEnv.CrcMatchesNumber` | wtmi/uboot-env.c:12-34 | the comparison of bit strings as one of numbers |
| `UbootEnv.ImagePasses` | wtmi/uboot-env.c:12-34 | an image that starts with that number passes |
| `UbootEnv.WindowFull` | wtmi/uboot-env.c:96-102 | a full window without a NUL: what starts in it binds nothing |
| `UbootEnv.GoingEntry` | wtmi/uboot-env.c:67-84 | one entry is one binding of the whole text or none |
| `UbootEnv.Assignment` | wtmi/uboot-env.c:69-83 | splits an entry at its first equals sign, leaving the text after it alone |
| `UbootEnv.Window` | wtmi/uboot-env.c:61-95 | the entries that end in one buffer, from wherever the last one left off |
| `UbootEnv.Scan` | wtmi/uboot-env.c:52-107 | the window scan terminates, and the callback gets exactly the bindings of the whole text, in order, up to its first refusal |
| `UbootEnv.ForEach` | wtmi/uboot-env.c:36-107 | negative, with nothing visited, exactly when the CRC is wrong |
| `UbootEnv.VisitedAll` | wtmi/uboot-env.c:76-77 | a callback that always goes on gets all of them |
| `UbootEnv.FindOneFinds` | wtmi/uboot-env.c:114-124 | visiting until the name is found finds its first binding, and nothing exactly if no binding has the name |
| `UbootEnv.Get` | wtmi/uboot-env.c:126-137 | a value is that of some binding of the name, with none before it; no value means a wrong CRC or no binding of the name |
| `UbootEnv.WrittenRead` | wtmi/uboot-env.c:36-107 | an environment written out in this format binds exactly what was written |
| `UbootEnv.GetWritten` | wtmi/uboot-env.c:36-137 | of an environment written out with its CRC, the value read is the one written first for the name |
| `Crc32.PolyPattern` | wtmi/compressed/crc32.c:46-53 | the terms of the polynomial make the pattern 0xedb88320 |
| `Crc32.CrcConcat` | wtmi/compressed/crc32.c:145-183 | the bit-serial CRC composes over concatenation |
| `Crc32.SerialIsSteps` | wtmi/compressed/crc32.c:145-183 | adding n bits at once and stepping n times is the bit-serial definition |
| `Crc32.TableStep` | wtmi/compressed/crc32.c:138-138 | one look into the table is eight steps |
| `Crc32.MakeCrcTable` | wtmi/compressed/crc32.c:41-63 | entry n is eight steps from n |
| `Crc32.WordStep` | wtmi/compressed/crc32.c:165-172 | a word loaded at once is its four bytes |
| `Crc32.Crc32NoComp` | wtmi/compressed/crc32.c:145-183 | the bit-serial CRC of section 8 of RFC 1952, for every address and length |
| `Crc32.CrcComplemented` | wtmi/compressed/crc32.c:186-189 | with ones complement before and after |
| `Crc32.ComplementedConcat` | wtmi/compressed/crc32.c:186-189 | which still composes over concatenation |
| `Crc32.Crc32Firmware` | wtmi/crc32.c:70-89 | what the three loops compute, for every address and length |
| `Crc32.ServedIsRight` | wtmi/crc32.c:70-89 | the CRC for the addresses and lengths that are served |
| `Crc32.NotServedIsWrong` | wtmi/crc32.c:70-89 | for every other one, some buffer gets a wrong result |
| `Crc32.ServedExactly` | wtmi/crc32.c:70-89 | so it computes the CRC of every buffer exactly for these |
| `Adler32.ChecksumConcat` | wtmi/compressed/adler32.c:57-122 | the per-byte definition composes over concatenation |
| `Adler32.RawIsDeferred` | wtmi/compressed/adler32.c:92-117 | one reduction at the end is as good as one after every byte |
| `Adler32.NmaxIsLargest` | wtmi/compressed/adler32.c:11-13 | 5552 is the largest number of bytes for which no sum can leave 32 bits |
| `Adler32.Do16` | wtmi/compressed/adler32.c:15-19 | sixteen bytes without overflow |
| `Adler32.Adler32` | wtmi/compressed/adler32.c:57-122 | the per-byte checksum of section 2.2 of RFC 1950, by all four paths |
| `Adler32.PackedConcat` | wtmi/compressed/adler32.c:57-122 | a checksum can be continued from where it was left |
| `Numbers.TenthIsClose` | wtmi/stdio.c:177-187 | the shift estimate of a tenth is low by at most one and stays in 64 bits |
| `Numbers.DivMod10` | wtmi/stdio.c:177-193 | exact quotient and remainder for every u64 |
| `Numbers.DigitsFit` | wtmi/stdio.c:206-240 | no base needs more than the 64 characters before the NUL |
| `Numbers.FillBuffer` | wtmi/stdio.c:240-262 | the digits of the number, without leaving the buffer |
| `Numbers.DoNumber` | wtmi/stdio.c:198-313 | the text, padded as flags, width and precision ask: a sign first, and blanks only on the side that the flags say |
| `Numbers.TextLaid` | wtmi/stdio.c:286-306 | blanks come before the number without adjust and after it with adjust; a negative number starts with a minus sign, another with what the flags ask for, and the rest is digits and letters of one case |
| `Numbers.TextWidth` | wtmi/stdio.c:264-286 | it is as wide as asked for, or as the number needs |
| `Numbers.Number` | wtmi/debug.c:380-420 | the value of a string of digits in 32 bits, an error for any other |
| `Numbers.DigitsRead` | wtmi/debug.c:388-414 | positional notation inverts the digits |
| `Numbers.ReadsBack` | wtmi/debug.c:380-420 | what was printed reads back as its low 32 bits exactly when printed without sign, blanks and binary prefix |
| `BigNum.Cmp` | wtmi/crypto.c:173-185 | orders by value, and zero means equal words |
| `BigNum.Add` | wtmi/crypto.c:224-236 | value of the sum, with the carry out; words beyond len untouched |
| `BigNum.AddWord` | wtmi/crypto.c:230-232 | one word of the sum with both carries |
| `BigNum.Modulo` | wtmi/crypto.c:210-222 | terminates for every nonzero modulus with the remainder |
| `BigNum.AddMod` | wtmi/crypto.c:238-250 | the sum modulo 2^544, modulo m |
| `BigNum.AddModExact` | wtmi/crypto.c:238-250 | which is the sum modulo m exactly when nothing was dropped or m divides 2^544 |

## Left out

- `Inflate.Inflater.Inflate`: models raw DEFLATE only, as `zunzip()` uses it; the zlib and gzip headers and trailers (modes FLAGS to DICT, LENGTH), preset dictionaries and `Z_BLOCK` would add easy cases; so would the counters `total_in` and `total_out`, `data_type` and `msg`.
- `Inflate.Inflater.InflateFast`: the clamp for pointers that overflow the address space (lines 102 to 109) is not modelled; input is a sequence with an index.
- `Inflate.Inflater.Pass`: has the modes of raw DEFLATE only.
- `Inflate.Inflater.Loop`: likewise.
- `Inflate.Inflater.UpdateWindow`: the window is allocated with the decoder, so that the allocation cannot fail.
- `Inflate.Inflater.constructor`: always asks for the window of 32768 bytes, as raw DEFLATE does, and checks no version.
- `InfTrees.InflateTable`: states return 1 only as possible with too much space; that `inflate` never sees it is proved where it calls, by the sizes of its three tables.
- `FixedTables.BuildFixed`: the static tables of `inffixed.h` are not compared; they hold `{64,8,0}` for symbols 286 and 287, where the builder writes `{201,8,0}` and `{196,8,0}`, which all mean an error.
- `Crc32.MakeCrcTable`: the static tables of both CRC files are not compared with the generated one.
- `Mailbox.Mailbox.ProcessCommands`: the handlers' effects, the reply's status word and the messages to the host are not modelled; `mbox_send()` is a step that does not touch the queue.
- `Efuse.Fuses.WriteRowWithEccLock`: claims nothing about locking the row of check bytes, which as written never happens; of masked rows nothing can be read back, so what is claimed of their values supposes hardware that does not fail.
- `Efuse.Fuses.RawWrite`: register sequences and delays are the nondeterministic effect stated; which steps fail is counted in a ghost field, not observed.
- `Efuse.WriteSecureBuffer`: claims nothing if a row of check bytes is masked.
- `Ebg.Generator.ParanoidRand`: `paranoid_rand_64()` is some block of 64 bytes; hashing and mixing are left out.
- `UbootEnv.Scan`: the returned number of ignored variables counts windows without NUL rather than variables, and nothing is stated about it.
- `UbootEnv.ForEach`: says of its result only when it is negative.
- `BigNum.Add`: excludes adding a number to itself in place, where the carry would be added twice; so does `AddMod`.
- `BigNum.AddMod`: excludes a zero modulus, as `Modulo` does.
- `BigNum.Modulo`: a zero modulus, for which the loop does not end, is excluded.
- `Adler32.Adler32`: starts from reduced sums, which is what every call returns; from others the path for one byte may not reduce enough.  The variant of the reduction without division (`NO_DIVIDE`) is not configured and not modelled.
- `Numbers.DoNumber`: argument lists and format parsing of printf are left out, and widths are not limited to 32 bits.
- Memory allocation: window, tables and decoder state are disjoint memory.
- Clock, voltage, UART, SPI, MDIO, GPIO and DRAM code, the accelerators for hashes and elliptic curves, image loading and the console: register accesses without an invariant to state here.
