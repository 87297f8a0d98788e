# libbacktrace and half-precision conversion, modelled and proved

This project models the self-contained algorithms of the C and C++ code that TVM vendors: the
decompressors, DWARF tables, allocator and sort of libbacktrace, and the float conversions of
compiler-rt.  `dafny verify dfyconfig.toml` checks all of it.

## What is modelled

**Inflate** (RFC 1950, RFC 1951).  `CanonicalCode` defines canonical Huffman codes and proves them
prefix-free from the Kraft inequality.  `HuffmanTable`, `TableLayout`, `TableSpace` and
`TableBuilder` prove the two-level table builder, which counts codes with their bits reversed.
`HiddenSymbol` and `TableClash` say which over-subscribed codes the builder accepts and why it
rejects all others, `CompleteCodes` why the secondary area is large enough
and `OverfullTable` a code for which it is not.  `BitReader` is the
64-bit bit reservoir, `MatchCopy` the three-way copy.  `Deflate` says, as a relation between a bit
stream and a token sequence, what the stream carries; `InflateBlock`,
`DynamicHeader` and `Inflate` prove the decoder against it, and `ZlibStreams` the zlib wrapper for
any number of streams.  `DeflateTables` says what the code tables mean.  Ghost parameters (tokens, headers, blocks, streams, messages) stand for
"whatever the input carries": the contracts hold for all of them.  `StreamExamples` has streams byte by
byte, most of them valid input that the decoder refuses.  `Adler32` is the checksum with its modulo put off.

**LZMA**.  `RangeCoder` has the decoder step as a function and a reference encoder on unbounded
integers; `LzmaIntegers` proves that decoding inverts encoding for whole messages and for bit-tree
integers.  `LzmaReader`, `LzmaPackets` and `LzmaChunk` carry that through the in-place decoder up to
a whole chunk, and `LzmaBlock` through the LZMA2 chunks of a block: for every sequence of chunks that
a reference encoder lays out, the loop gives back what they say.  `LzmaRecency` and `LzmaLaws` say what
the four distances, the states, the contexts and the probabilities stand for, apart from the functions
that compute them, and `LzmaExample` has blocks byte by byte.

**DWARF**.  `Leb128` and `Abbrevs` are the readers, with the encoders they invert; `DwarfExamples` has
numbers and a table byte by byte.  `IntervalIndex`,
`UnitIndex`, `InlinedCalls` and `LineTable` are the sorted tables and the lookups in them; `Search`
states what they may rely on from bsearch.

**Allocator**.  `FreeList` is the list itself, updated in place.  `AllocProtocol` is a state machine
in which any number of threads interleave the steps of allocation and free around the try-lock;
ownership is counted byte by byte.

**Lists**.  `AppendList` is the state machine of the lock-free append and its readers, `LinkedList`
the same without threads.

**Conversions and sort**.  `Fp16` proves truncation and extension for every pair of formats that
satisfies the conditions in `Formats`, comparing values as integers in units of the smallest number
of the wide format; `HalfPrecision` says what that comes to for float and half.
`QSort` is the in-place quicksort.

`Bits` has shifts, masks and powers of two; ShiftMeaning ties them to division and remainder.

## Where the code differs from its documentation

- A stored deflate block whose header ends on a byte boundary is misread: the reader keeps up to
  eight bits too many (elf.c:1799).  `Inflate.InflateStored` gives the outcome on either
  side of that condition: such a block never leads to the right output.  `StreamExamples.NotFound` is a whole stream with one, which the decoder refuses.
- The collision test of the table builder does not see the entry of symbol 0 with a one-bit code,
  which is zero (elf.c:1318-1332), so an over-subscribed code can be accepted:
  `TableBuilder.AcceptOversubscribed`.  `TableBuilder.InflateTable` says exactly which codes are
  accepted, that the table of an accepted code is right if and only if the lengths meet the Kraft
  inequality, and that they do unless symbol 0 has a one-bit code.
- Near the end of the input a refill wants four whole bytes (elf.c:1125), so a valid stream can be
  refused: `StreamExamples.CutShort`.  `Inflate.LastRefillDecides` has the exact condition, and
  `Inflate.ChecksumRoom` says what it comes to with the checksum right behind the blocks; a last block
  with fixed codes is never affected (`Inflate.FixedRoom`).
- Behind a stream the next one is looked for at the word boundary up to which the input has been
  read, not behind the checksum (elf.c:1712-1718).  `ZlibStreams.NextFound` says exactly when these
  are the same; `StreamExamples.InflateTwice` has two streams that are accepted on word boundaries
  and refused elsewhere.  The checksum that is compared is that of the whole output (elf.c:2535), so
  streams with their own checksums are refused even if they are found: `StreamExamples.RefusePair`.
- Differences of pointers are cast to 32 bits before they are compared (elf.c:1823-1824, 2313, 2353,
  2359), so large room can be taken for too little: `StreamExamples.WideRefused`.  The equivalences
  carry the condition that no difference is cut, which `Inflate.SmallIsNarrow` gives for input and
  output of less than 2^32 bytes.
- The loop that takes the literal position bits out of an LZMA property byte stops at nine
  (elf.c:3321), so the byte of a code without literal context bits but with literal position bits is
  refused: `LzmaBlock.ReadProps`, with the byte 9 in `LzmaBlock.RefuseProps`.
- The shift of the LEB128 readers is a 32-bit number (dwarf.c:960), so the value of a number of more
  than 613566757 bytes is wrong: `Leb128.ShiftWraps`.
- `add_line` compares an unrelocated address with a relocated one (dwarf.c:2627), so it ignores
  repeated rows as intended only for modules that are not relocated:
  `LineTable.IgnoresRepetitions`.
- The lookup in a table of nested ranges can miss an enclosing range behind an inner one that starts
  later and has ended: `IntervalIndex.EnclosingMissed`, with the exact condition for an
  address in `IntervalIndex.FoundExactly` and for a table in `IntervalIndex.NeverMisses`.

## Model

| member | source | states |
|---|---|---|
| CanonicalCode.PrefixFree | tvm/3rdparty/libbacktrace/elf.c:1318-1336 | For lengths that meet the Kraft inequality no bit window starts with the codes of two symbols, which is why the builder may fill every index that starts with a code. |
| CanonicalCode.CodeBound | tvm/3rdparty/libbacktrace/elf.c:1292-1296 | Under the Kraft inequality the codes of length j end at or below 2^j, so the count test only rejects over-subscribed lengths. |
| DeflateTables.SameLengthInOrder | tvm/3rdparty/libbacktrace/elf.c:1283-1317 | Symbols of one length get consecutive codes in the order of the symbols, the first rule of section 3.2.2 of RFC 1951. |
| DeflateTables.ShorterFirst | tvm/3rdparty/libbacktrace/elf.c:1283-1296 | Every shorter code comes before every longer one and is no prefix of it, the second rule of that section. |
| DeflateTables.EightCodes | tvm/3rdparty/libbacktrace/elf.c:1283-1317 | The lengths 3, 3, 3, 3, 3, 2, 4, 4 of that section give its codes 010 to 110, 00, 1110 and 1111. |
| DeflateTables.EveryWindow | tvm/3rdparty/libbacktrace/elf.c:1318-1336 | When the Kraft sum is one, every window starts with the code of some symbol. |
| CanonicalCode.Oversubscribed | tvm/3rdparty/libbacktrace/elf.c:1233-1540 | When the Kraft sum exceeds one, two different symbols match the all-zero window, so no table can serve both. |
| HuffmanTable.RevAddOne | tvm/3rdparty/libbacktrace/elf.c:1343-1374 | Carrying from the most significant end of a bit-reversed number adds one to the number. |
| HuffmanTable.RevAddBitAdds | tvm/3rdparty/libbacktrace/elf.c:1395-1417 | Carrying from bit j - k - 1 of a bit-reversed j-bit number adds 2^k to the number. |
| HuffmanTable.NextCode | tvm/3rdparty/libbacktrace/elf.c:1362-1372 | The search for the most significant clear bit is that reversed addition, modulo 2^j. |
| TableLayout.DoneLookup | tvm/3rdparty/libbacktrace/elf.c:2204-2221 | Once the entries of a symbol are installed, the two-step lookup of every window that starts with its reversed code gives the symbol and its length. |
| TableLayout.ShortStep | tvm/3rdparty/libbacktrace/elf.c:1318-1336 | Installing a short code keeps the layout: installed symbols stay decodable and every filled primary entry has an installed owner. |
| TableLayout.ShortFree | tvm/3rdparty/libbacktrace/elf.c:1328-1332 | The entries of the next short code are still empty for every code the builder accepts, so the collision test cannot fail for it. |
| TableLayout.NewSecondary | tvm/3rdparty/libbacktrace/elf.c:1464-1482 | Starting a secondary table keeps the layout: its region lies in the table and is apart from all earlier ones. |
| TableLayout.LongStep | tvm/3rdparty/libbacktrace/elf.c:1503-1517 | Installing a long code keeps the layout, including every code that shares its secondary table. |
| TableLayout.LongFree | tvm/3rdparty/libbacktrace/elf.c:1511-1515 | The secondary entries of the next long code are still empty. |
| TableBuilder.LinkSymbols | tvm/3rdparty/libbacktrace/elf.c:1250-1273 | The counts and the linked lists give, for every length, its symbols in ascending order; it fails exactly on a length above 15. |
| TableBuilder.FillPrimary | tvm/3rdparty/libbacktrace/elf.c:1283-1376 | For every code the builder accepts all codes of up to eight bits are installed; success for any lengths means no collision was possible; the running code is then the reversed end of the codes of length eight. |
| TableBuilder.FirstCodes | tvm/3rdparty/libbacktrace/elf.c:1380-1424 | For every length from nine to fifteen that occurs, the stored value is the reversed first canonical code; it succeeds if every count is below 2^j. |
| TableBuilder.SelectSecondary | tvm/3rdparty/libbacktrace/elf.c:1453-1501 | Finds or starts the secondary table for a code; for lengths without a clash it fails only if the tables do not all have room. Filled entries are never changed. |
| TableBuilder.FillSecondary | tvm/3rdparty/libbacktrace/elf.c:1431-1531 | For lengths without a clash all codes are installed, longest first, unless the tables do not all have room. |
| TableBuilder.InflateTable | tvm/3rdparty/libbacktrace/elf.c:1233-1540 | The builder succeeds if and only if the secondary tables have room and the lengths meet the Kraft inequality, or would without a symbol 0 of one bit (at most one other code having one bit); decoding through the table is then exact (symbol and length of the canonical code a window starts with) if and only if the lengths themselves meet it; success shows that they do unless symbol 0 has a one-bit code. |
| HiddenSymbol.Distinguished | tvm/3rdparty/libbacktrace/elf.c:1318-1332 | In every code the builder accepts, no window starts with the codes of two symbols, except a symbol 0 of one bit whose zero entry later codes overwrite. |
| HiddenSymbol.Clash | tvm/3rdparty/libbacktrace/elf.c:1318-1332 | In every other code two symbols with non-zero entries have the same code. |
| TableClash.OnceIsTame | tvm/3rdparty/libbacktrace/elf.c:1318-1515 | So the collision test stops the builder before all symbols of such a code are installed, in whatever order they are. |
| TableBuilder.AcceptOversubscribed | tvm/3rdparty/libbacktrace/elf.c:1318-1332 | The builder accepts the lengths 1, 2, 2, 2, which exceed the Kraft inequality, and its table does not decode them. |
| TableSpace.NineBitsFit | tvm/3rdparty/libbacktrace/elf.c:1544-1605 | Codes of at most nine bits, as in the fixed code, always fit the secondary area. |
| TableSpace.NoRoomToStart | tvm/3rdparty/libbacktrace/elf.c:1464-1472 | A secondary table that cannot be started means that the tables do not all have room. |
| TableSpace.PackedHadRoom | tvm/3rdparty/libbacktrace/elf.c:1431-1531 | Tables that have all been started, largest first, did have room. |
| CompleteCodes.NeedLevel | tvm/3rdparty/libbacktrace/elf.c:1166-1175 | The table for a first byte is as large as the longest code of its block, which is the length that completes the block in canonical order. |
| CompleteCodes.LevelsBound | tvm/3rdparty/libbacktrace/elf.c:1166-1175 | The blocks completed by codes of at most j bits have fewer than 2^(j - 8) - (j - 8) entries more than symbols. |
| CompleteCodes.SpaceBound | tvm/3rdparty/libbacktrace/elf.c:1166-1175 | The secondary tables of a complete code have at most 120 entries more than the code has symbols, those of any code at most 248. |
| CompleteCodes.CompleteFits | tvm/3rdparty/libbacktrace/elf.c:1166-1175 | So the secondary area is large enough for every complete code of the literal alphabet and every code of the distance alphabet. |
| OverfullTable.NoRoomForOverfull | tvm/3rdparty/libbacktrace/elf.c:1464-1472 | A code of 267 symbols that meets the Kraft inequality and does not fit the secondary area. |
| OverfullTable.RefuseOverfull | tvm/3rdparty/libbacktrace/elf.c:1464-1472 | The builder refuses it. |
| BitReader.Reservoir.Fetch | tvm/3rdparty/libbacktrace/elf.c:1110-1156 | The reservoir stays exactly the unread bits below the input pointer, with at most 46 of them; on success at least fifteen are there; it succeeds exactly when fifteen bits remain before the last word boundary of the input, or before a pointer behind that. |
| BitReader.Reservoir.StarvedExactly | tvm/3rdparty/libbacktrace/elf.c:1121-1130 | Whether a refill finds enough input depends only on the position of the reader, not on how many bits are held. |
| BitReader.Reservoir.Take | tvm/3rdparty/libbacktrace/elf.c:1780-1782 | Reads the next n bits of the stream and keeps the reservoir exact. |
| BitReader.Reservoir.Align | tvm/3rdparty/libbacktrace/elf.c:1755-1764 | Skipping to a word boundary moves the skipped bytes into the reservoir and leaves the stream position where it was. |
| BitReader.Reservoir.Bounds | tvm/3rdparty/libbacktrace/elf.c:1110-1156 | The reservoir value is below 2^bits, and bits is at most 46. |
| BitReader.FourBytesAt | tvm/3rdparty/libbacktrace/elf.c:1128-1150 | The little-endian word at a byte position is the next 32 bits of the stream. |
| MatchCopy.CopyMatch | tvm/3rdparty/libbacktrace/elf.c:2287-2384 | memset, one memcpy, or repeated memcpys of at most dist bytes: in all cases the output is the byte-at-a-time overlapping copy, and nothing behind it changes. |
| MatchCopy.RepeatAt | tvm/3rdparty/libbacktrace/elf.c:3548-3578 | In that copy every new byte equals the byte dist positions before it. |
| MatchCopy.RepeatUnique | tvm/3rdparty/libbacktrace/elf.c:3548-3578 | It is the only extension with that property. |
| DeflateTables.LengthLaw | tvm/3rdparty/libbacktrace/elf.c:2246-2276 | Match lengths begin at 3; each length code begins where the one before ends, with one bit more for each four codes from symbol 265 on; 258 has a code of its own. |
| DeflateTables.EveryLength | tvm/3rdparty/libbacktrace/elf.c:2246-2276 | Every length from 3 to 258 can be sent. |
| DeflateTables.DistLaw | tvm/3rdparty/libbacktrace/elf.c:2322-2348 | Distances begin at 1 and end at 32768, each code beginning where the one before ends, with one bit more for each two codes from the fifth on. |
| DeflateTables.MatchExample | tvm/3rdparty/libbacktrace/elf.c:2242-2348 | Sixteen bits, 0x98d8, that carry a copy of 20 bytes from 11 back: which of them are the symbols, first bit on top, and which the extra bits, lowest bit first. |
| Deflate.LengthFormulaIsTable | tvm/3rdparty/libbacktrace/elf.c:2266-2275 | The shift expression for match lengths is the table of section 3.2.5 of RFC 1951. |
| Deflate.DistFormulaIsTable | tvm/3rdparty/libbacktrace/elf.c:2338-2347 | The shift expression for distances is the table of section 3.2.5 of RFC 1951. |
| InflateBlock.DecodeSymbol | tvm/3rdparty/libbacktrace/elf.c:2204-2221 | With an exact table, decodes the symbol the stream carries and consumes exactly its code; never more than fifteen bits. |
| InflateBlock.ReadLength | tvm/3rdparty/libbacktrace/elf.c:2246-2276 | The length a symbol above 256 and its extra bits stand for; fails for symbols above 285 or for want of input. |
| InflateBlock.ReadDistance | tvm/3rdparty/libbacktrace/elf.c:2322-2348 | The distance a symbol and its extra bits stand for; fails for symbols above 29 or for want of input. |
| InflateBlock.CopyTested | tvm/3rdparty/libbacktrace/elf.c:2302-2363 | The tests before a copy, with their casts to 32 bits, let a match pass exactly when it can be expanded and no cast cuts a difference to a smaller one that matters. |
| InflateBlock.InflateMatch | tvm/3rdparty/libbacktrace/elf.c:2242-2384 | A match carried by the stream is expanded, or does not pass these tests, or the input starves. |
| InflateBlock.InflateStep | tvm/3rdparty/libbacktrace/elf.c:2196-2384 | One turn of the main loop decodes the next token of the block, or its end, into the output. |
| InflateBlock.InflateBody | tvm/3rdparty/libbacktrace/elf.c:2196-2385 | For every token sequence the stream carries: it succeeds exactly when the tokens fit the output, no difference is cut and fifteen bits remain at the last end-of-block code; success means the output is the expansion, the reader stands right behind that code, and the input pointer is 15 to 46 bits behind its beginning. |
| InflateBlock.SmallTokens | tvm/3rdparty/libbacktrace/elf.c:2302-2363 | For an output of less than 2^32 bytes no difference is cut. |
| StreamExamples.WideRefused | tvm/3rdparty/libbacktrace/elf.c:2313-2317 | Tokens that fill a buffer of 2^32 + 1 bytes exactly and are refused: the room of 2^32 bytes is cut to none. |
| DynamicHeader.ReadCodeLengthCode | tvm/3rdparty/libbacktrace/elf.c:1884-2011 | Reads the lengths of the code length code in the order of section 3.2.7 of RFC 1951; fails only when the input starves inside them. |
| DynamicHeader.OrderLaw | tvm/3rdparty/libbacktrace/elf.c:1884-2011 | That order is 16, 17, 18, 0, and then 8 and its neighbours on either side, ever farther away. |
| DynamicHeader.ReadItem | tvm/3rdparty/libbacktrace/elf.c:2027-2167 | Reads one item of the run-length coded lengths and applies it. |
| DynamicHeader.ReadLengths | tvm/3rdparty/libbacktrace/elf.c:2023-2168 | For every item sequence the stream carries that gives exactly the announced number of lengths, the loop returns those lengths. |
| DynamicHeader.HeaderMeans | tvm/3rdparty/libbacktrace/elf.c:2027-2167 | In the lengths that a header describes, what an item adds stands right behind what the items before it add: one length up to 15; 3 to 6 times the length directly before; or 3 to 10, or 11 to 138, zeros. |
| DynamicHeader.RepeatPrevious | tvm/3rdparty/libbacktrace/elf.c:2071-2105 | The items 8, 9, 16 give 8, 9, 9, 9, 9. |
| DynamicHeader.ReadHeader | tvm/3rdparty/libbacktrace/elf.c:1850-2189 | For every dynamic header the stream carries, both decoding tables are exact for the codes it describes and the reader stands behind it; it fails only if the input starves inside the header or a secondary area has no room. |
| DynamicHeader.DenseTablesFit | tvm/3rdparty/libbacktrace/elf.c:1166-1175 | Both areas have room if the literal code is complete, or has at most 264 symbols. |
| Inflate.FixedFit | tvm/3rdparty/libbacktrace/elf.c:1546-1568 | The fixed codes of section 3.2.6 of RFC 1951 meet the Kraft inequality. |
| DeflateTables.FixedLitCodes | tvm/3rdparty/libbacktrace/elf.c:1546-1568 | The codes and lengths of all 288 literal symbols are those of the table of section 3.2.6. |
| DeflateTables.FixedDistCodes | tvm/3rdparty/libbacktrace/elf.c:1546-1568 | Distance codes are the 32 five-bit numbers. |
| DeflateTables.FixedComplete | tvm/3rdparty/libbacktrace/elf.c:1546-1568 | Both fixed codes are complete: every window starts with one of their codes. |
| Inflate.DefaultTables | tvm/3rdparty/libbacktrace/elf.c:1544-1605 | The generator of the constant tables gives tables that decode the fixed codes exactly. |
| Inflate.InflateStored | tvm/3rdparty/libbacktrace/elf.c:1791-1844 | A stored block whose header does not end on a byte boundary is copied, exactly if the input reaches, the output has room and neither difference is cut to 32 bits; one whose header does never leads to the right output. |
| Inflate.MisreadDiffers | tvm/3rdparty/libbacktrace/elf.c:1797-1803 | What stands one byte behind the place of a stored block is never a stored block of the same length. |
| Inflate.ReadStored | tvm/3rdparty/libbacktrace/elf.c:1791-1844 | Copies the stored data found at the byte position the code computes and realigns; fails exactly when there is none that passes the two tests of 32-bit differences. |
| Inflate.InflateBlocks | tvm/3rdparty/libbacktrace/elf.c:1766-2386 | For every block sequence the stream carries, the block loop succeeds exactly when input, tables and output are enough and no difference is cut, writes the expansion and stops behind the last block, at the one word boundary that StopAt gives; it fails at a stored block where it finds none. |
| Inflate.StopUnique | tvm/3rdparty/libbacktrace/elf.c:1110-1156 | Behind a Huffman-coded block there is only one word boundary at which the input pointer can stand. |
| Inflate.SmallIsNarrow | tvm/3rdparty/libbacktrace/elf.c:1823-1824 | With less than 2^32 bytes of input and of output no difference is cut in any block. |
| ZlibStreams.ZlibInflate | tvm/3rdparty/libbacktrace/elf.c:1704-2396 | For any number of streams that stand where the code looks for them: with nothing but four bytes behind, it succeeds if and only if their expansion has the size of the output buffer, the input is long enough for all refills, the tables fit and no difference is cut, and the buffer then holds the expansion; with something behind that has no header, or a stored block that is not found, it fails. |
| ZlibStreams.HeaderLaw | tvm/3rdparty/libbacktrace/elf.c:1727-1752 | A header is good if and only if its fields are method 8, a window size of at most 7, no preset dictionary, and check bits that make the two bytes a multiple of 31 (section 2.2 of RFC 1950). |
| ZlibStreams.OneCheck | tvm/3rdparty/libbacktrace/elf.c:1746-1752 | For every window size and level exactly one choice of the check bits is good. |
| StreamExamples.InflateWithHeader | tvm/3rdparty/libbacktrace/elf.c:1727-1752 | An empty stream is accepted on a word boundary if and only if its header is good: behind 78 that are 01, 5e, 9c and da, and no header with another method or a larger window. |
| ZlibStreams.InflateAndVerify | tvm/3rdparty/libbacktrace/elf.c:2528-2538 | The same, and the last four bytes of the input must be the checksum of the whole output. |
| ZlibStreams.WholeStreamAccepted | tvm/3rdparty/libbacktrace/elf.c:2528-2538 | One stream as RFC 1950 has it, checksum included, passes if and only if the buffer has the right size, the tables fit, and the input does not end three bytes past a word boundary with less than seven bits of last code and padding. |
| ZlibStreams.NextFound | tvm/3rdparty/libbacktrace/elf.c:1712-1718 | What stands right behind a checksum is found if and only if it begins on a word boundary and the last block before it is not a stored one and has at most 14 bits of last code and padding. |
| ZlibStreams.AllFound | tvm/3rdparty/libbacktrace/elf.c:1712-1718 | Streams that follow one another are all found if that holds for every one but the last. |
| ZlibStreams.FirstLost | tvm/3rdparty/libbacktrace/elf.c:1712-1718 | Otherwise the code finds them up to some stream and looks for that one in the wrong place. |
| ZlibStreams.StreamsApart | tvm/3rdparty/libbacktrace/elf.c:2302-2363 | Although a match may reach back into earlier streams, streams that can be decoded by themselves give their outputs one after the other. |
| Inflate.DenseBlocksFit | tvm/3rdparty/libbacktrace/elf.c:1166-1175 | The tables of all blocks fit if their literal codes are complete, or have at most 264 symbols. |
| Inflate.LastRefillDecides | tvm/3rdparty/libbacktrace/elf.c:1110-1156 | With four bytes behind the blocks the input is long enough for all refills if and only if the last block is a stored one or fifteen bits remain, at the last end-of-block code, before the last word boundary of the input. |
| Inflate.ChecksumRoom | tvm/3rdparty/libbacktrace/elf.c:1121-1130 | With the checksum right behind the blocks that fails if and only if the input ends three bytes past a word boundary and the last end-of-block code and the padding behind it are together shorter than seven bits. |
| Inflate.FixedRoom | tvm/3rdparty/libbacktrace/elf.c:1121-1130 | So a stream that ends in a block with fixed codes is never cut short. |
| StreamExamples.CutShort | tvm/3rdparty/libbacktrace/elf.c:1121-1130 | A whole zlib stream of 18 bytes whose last code has one bit, with four bits of padding. |
| StreamExamples.InflateShort | tvm/3rdparty/libbacktrace/elf.c:2528-2538 | It is accepted if and only if it does not begin one byte past a word boundary. |
| StreamExamples.NotFound | tvm/3rdparty/libbacktrace/elf.c:1797-1803 | A whole zlib stream of 16 bytes whose stored block is not found. |
| StreamExamples.RefuseUnaligned | tvm/3rdparty/libbacktrace/elf.c:2528-2538 | The decoder refuses it at every address and for every size of the output. |
| StreamExamples.TwiceFound | tvm/3rdparty/libbacktrace/elf.c:1712-1718 | Two whole zlib streams, one right behind the other, of which the second is found if and only if the first begins on a word boundary. |
| StreamExamples.TwiceLost | tvm/3rdparty/libbacktrace/elf.c:1712-1718 | At every other address the one place where the code looks has no header. |
| StreamExamples.InflateTwice | tvm/3rdparty/libbacktrace/elf.c:2528-2538 | They are accepted exactly on word boundaries. |
| StreamExamples.PairConcatenated | tvm/3rdparty/libbacktrace/elf.c:2535-2536 | Two whole streams, each with the checksum of its own output. |
| StreamExamples.RefusePair | tvm/3rdparty/libbacktrace/elf.c:2528-2538 | They are refused at every address, even where both are found. |
| Adler32.NoOverflow | tvm/3rdparty/libbacktrace/elf.c:2425-2466 | After 5552 bytes without a reduction the second sum still fits in 32 bits. |
| Adler32.AddSixteen | tvm/3rdparty/libbacktrace/elf.c:2429-2461 | Sixteen additions keep both sums congruent to the byte-by-byte checksum and inside 32 bits. |
| Adler32.AddBlocks | tvm/3rdparty/libbacktrace/elf.c:2425-2466 | Reducing once every 5552 bytes keeps the sums equal to the byte-by-byte checksum. |
| Adler32.VerifyChecksum | tvm/3rdparty/libbacktrace/elf.c:2402-2523 | Accepts exactly the four big-endian bytes of the Adler-32 checksum of section 8.2 of RFC 1950, for every buffer. |
| Adler32.BaseIsPrime | tvm/3rdparty/libbacktrace/elf.c:2464-2465 | The modulus is a prime. |
| Adler32.BaseIsLargest | tvm/3rdparty/libbacktrace/elf.c:2464-2465 | Every larger number below 2^16 has a factor, so it is the largest prime of section 8.2 of RFC 1950. |
| Adler32.OnesChecksum | tvm/3rdparty/libbacktrace/elf.c:2402-2523 | The checksum of 300 bytes ff, for which both sums wrap, is b90f2ae4. |
| Adler32.VerifyOnes | tvm/3rdparty/libbacktrace/elf.c:2402-2523 | Just these four bytes are accepted for it. |
| RangeCoder.AdaptKeeps | tvm/3rdparty/libbacktrace/elf.c:2919-2926 | A probability stays in [31, 2017]. |
| RangeCoder.NormalizeRestores | tvm/3rdparty/libbacktrace/elf.c:2881-2899 | With input left one normalisation step restores range >= 2^24, loses no bit of the code and keeps it inside the range. |
| RangeCoder.BoundInside | tvm/3rdparty/libbacktrace/elf.c:2914-2915 | The bound lies inside the range with at least 2^16 on either side, so neither product nor difference overflows. |
| LzmaLaws.InitIsHalf | tvm/3rdparty/libbacktrace/elf.c:3342-3343 | The initial probability splits a range in halves, up to the 2047 that the division may drop. |
| LzmaLaws.AdaptLaw | tvm/3rdparty/libbacktrace/elf.c:2917-2924 | A probability moves a thirty-second of the way to its end of the scale; 31 and 2017, where it comes to rest, are reached. |
| LzmaLaws.FirstBit | tvm/3rdparty/libbacktrace/elf.c:2904-2928 | The first bit of a chunk is 1 if and only if its four code bytes are 7ffffc00 or more; what range, code and probability are then. |
| RangeCoder.BitKeeps | tvm/3rdparty/libbacktrace/elf.c:2904-2928 | Decoding a bit with input left keeps range, code and all probabilities in their bounds. |
| RangeCoder.RunKeeps | tvm/3rdparty/libbacktrace/elf.c:2904-2928 | They stay in their bounds over every run of decoded bits in which no normalisation finds the input exhausted. |
| RangeCoder.InputLeft | tvm/3rdparty/libbacktrace/elf.c:2881-2899 | That is every run that leaves input unread; the offset never falls. |
| LzmaIntegers.StartGood | tvm/3rdparty/libbacktrace/elf.c:3348-3359 | From the initial probabilities a chunk starts within these bounds if and only if its four code bytes are not all 0xff. |
| LzmaIntegers.StartRunKeeps | tvm/3rdparty/libbacktrace/elf.c:3335-3359 | So the bounds hold over every run from the start of a chunk that leaves input unread. |
| RangeCoder.ProbsKeep | tvm/3rdparty/libbacktrace/elf.c:2904-2928 | Probabilities stay in [31, 2017] even when the input runs out. |
| RangeCoder.EncodeInside | tvm/3rdparty/libbacktrace/elf.c:2904-2928 | In the reference encoder the interval of every message lies inside the range it starts from. |
| RangeCoder.DecodeBitInverts | tvm/3rdparty/libbacktrace/elf.c:2904-2928 | If the input carries a message, decoding in the context of its first event gives that bit and leaves an input that carries the rest. |
| RangeCoder.DecodeDirectInverts | tvm/3rdparty/libbacktrace/elf.c:3508-3522 | The same for an equiprobable bit. |
| LzmaIntegers.RoundTrip | tvm/3rdparty/libbacktrace/elf.c:2904-2928 | Decoding in the contexts of a message returns its bits and leaves the decoder in step with what follows. |
| LzmaIntegers.EmitAllIsEncode | tvm/3rdparty/libbacktrace/elf.c:2904-2928 | The streaming encoder with an unbounded low end computes the interval of the message. |
| LzmaIntegers.EncoderRoundTrip | tvm/3rdparty/libbacktrace/elf.c:2881-2979 | For every message and any number in the final interval of the reference encoder, the decoder returns the bits that were encoded. |
| LzmaIntegers.DecodeMsbInverts | tvm/3rdparty/libbacktrace/elf.c:2932-2952 | The most-significant-first integer reader inverts the bit-tree encoder. |
| LzmaIntegers.DecodeLsbInverts | tvm/3rdparty/libbacktrace/elf.c:2956-2979 | The least-significant-first integer reader inverts the reversed bit-tree encoder. |
| LzmaIntegers.EncoderOpen | tvm/3rdparty/libbacktrace/elf.c:2881-2979 | The final interval of the encoder is never empty, so there is always a number to send. |
| LzmaReader.ProbCount | tvm/3rdparty/libbacktrace/elf.c:2786-2791 | The layout of the probability array has the number of entries that the source checks for. |
| LzmaLaws.MatchContexts | tvm/3rdparty/libbacktrace/elf.c:3381-3386 | Whether a packet is a match is predicted by the state and the low bits of the position in the dictionary, and by nothing else. |
| LzmaLaws.LiteralContexts | tvm/3rdparty/libbacktrace/elf.c:3588-3598 | Two literals share their contexts if and only if the low bits of their positions and the high bits of the bytes before them agree. |
| LzmaLaws.SpecialTrees | tvm/3rdparty/libbacktrace/elf.c:3492-3505 | The bit trees of the middle distances lie end to end and fill the part of the array that is theirs. |
| LzmaLaws.SlotLaw | tvm/3rdparty/libbacktrace/elf.c:3485-3531 | Distance slots follow each other without a gap from 0 to 2^32 - 1. |
| LzmaLaws.LengthsBitByBit | tvm/3rdparty/libbacktrace/elf.c:2984-3033 | Lengths at the ends of the three ranges, context by context. |
| LzmaLaws.MiddleDistance | tvm/3rdparty/libbacktrace/elf.c:3467-3505 | A distance of slot 10, context by context. |
| LzmaLaws.FarDistance | tvm/3rdparty/libbacktrace/elf.c:3506-3531 | A distance of slot 14: equiprobable bits, highest first, and aligned bits, lowest first. |
| LzmaLaws.MatchedExample | tvm/3rdparty/libbacktrace/elf.c:3603-3635 | A literal predicted by a byte that differs in one bit, context by context. |
| LzmaLaws.RepeatBits | tvm/3rdparty/libbacktrace/elf.c:3390-3437 | The bits that tell the repeats apart. |
| LzmaReader.RangeDecoder.NormalizeRange | tvm/3rdparty/libbacktrace/elf.c:2881-2899 | In-place normalisation computes the specified state, with 32-bit wrap-around. |
| LzmaReader.RangeDecoder.ReadBit | tvm/3rdparty/libbacktrace/elf.c:2904-2928 | The in-place bit reader computes the specified state and bit. |
| LzmaReader.RangeDecoder.ReadDirect | tvm/3rdparty/libbacktrace/elf.c:3508-3522 | The branch-free bit is the specified equiprobable bit whenever the code lies inside the range; on all other input it is decided by the sign of a 32-bit difference. |
| LzmaReader.RangeDecoder.ReadInteger | tvm/3rdparty/libbacktrace/elf.c:2932-2952 | In step with an encoder, returns the integer that was sent and stays in step. |
| LzmaReader.RangeDecoder.ReadReverse | tvm/3rdparty/libbacktrace/elf.c:2956-2979 | In step with an encoder, returns the integer that was sent least significant bit first and stays in step. |
| LzmaPackets.ChunkUsable | tvm/3rdparty/libbacktrace/elf.c:3363-3655 | Every packet sequence that can be applied has a message that addresses only existing probabilities. |
| LzmaChunk.ReadLen | tvm/3rdparty/libbacktrace/elf.c:2984-3036 | In step with an encoder that sends a match length, returns that length. |
| LzmaChunk.ReadDist | tvm/3rdparty/libbacktrace/elf.c:3467-3531 | In step with an encoder that sends a distance slot and its low bits, returns that distance. |
| LzmaChunk.ReadMatchedLiteral | tvm/3rdparty/libbacktrace/elf.c:3603-3637 | In step with an encoder that sends a literal predicted by a byte, returns that literal. |
| LzmaChunk.ReadRep | tvm/3rdparty/libbacktrace/elf.c:3394-3455 | In step with an encoder that sends a repeated match, picks the distance and moves it to the front. |
| LzmaRecency.DistancesFromStart | tvm/3rdparty/libbacktrace/elf.c:3394-3465 | After any packets the four distances are those used most recently, latest first, a use being told by the match its distance came with. |
| LzmaRecency.LatestOrdered | tvm/3rdparty/libbacktrace/elf.c:3412-3427 | Most recently is meant as the order of last uses. |
| LzmaRecency.ExampleExpands | tvm/3rdparty/libbacktrace/elf.c:3394-3465 | Four literals, three matches and two repeats that expand to abcdabdadadada, with the distances 2, 4, 3, 1 at the end. |
| LzmaLaws.StateLaw | tvm/3rdparty/libbacktrace/elf.c:3439-3462 | From a reset on, the state is determined by the kind of the last packet that is no literal, by whether it followed one, and by how many literals followed it. |
| LzmaLaws.CopiesFromDictionary | tvm/3rdparty/libbacktrace/elf.c:3536-3578 | A match only copies bytes behind the start of the dictionary, as far back as the latest distance says. |
| LzmaChunk.ReadMatch | tvm/3rdparty/libbacktrace/elf.c:3387-3533 | In step with an encoder, reads new and repeated matches up to the copy: next state, distances and length. |
| LzmaChunk.DecodePacket | tvm/3rdparty/libbacktrace/elf.c:3375-3653 | One packet with a distance below 2^32 updates output, distances and state as it says, or does not fit the output. |
| LzmaChunk.UncompressChunk | tvm/3rdparty/libbacktrace/elf.c:3348-3662 | If the bytes are any number in the final interval of the reference encoder for a packet sequence, the chunk decodes to exactly what the packets say, leaves the probabilities of the encoder, and ends behind its digits and the one byte that a last normalisation may take; or the output is too small. |
| LzmaBlock.ReadProps | tvm/3rdparty/libbacktrace/elf.c:3306-3330 | The property byte is read as it was written, or refused: refused exactly if there are literal position bits and no literal context bits. |
| LzmaBlock.RefuseProps | tvm/3rdparty/libbacktrace/elf.c:3323-3330 | The valid property byte 9 is refused. |
| LzmaBlock.ReadHead | tvm/3rdparty/libbacktrace/elf.c:3266-3331 | The sizes and properties of an LZMA chunk. |
| LzmaBlock.ReadRaw | tvm/3rdparty/libbacktrace/elf.c:3214-3258 | An uncompressed chunk is copied, exactly if it is all there and fits. |
| LzmaBlock.PackedParts | tvm/3rdparty/libbacktrace/elf.c:3259-3364 | The bytes of a packed chunk as laid out by the encoder: resets, sizes and the place where the next control byte stands. |
| LzmaBlock.ReadPacked | tvm/3rdparty/libbacktrace/elf.c:3259-3659 | An LZMA chunk with its resets leads to the state its encoder is in and to the end of its bytes, or has a property byte that is refused, or does not fit. |
| LzmaBlock.ReadChunk | tvm/3rdparty/libbacktrace/elf.c:3201-3660 | The control byte picks dictionary reset, kind of chunk and resets. |
| LzmaBlock.UncompressBlock | tvm/3rdparty/libbacktrace/elf.c:3184-3661 | For every sequence of chunks the input carries, the loop succeeds exactly when no property byte is one it refuses and the output fits; the output is then that of the chunks, and the offset stands behind the byte that ends them. |
| LzmaExample.TwiceCarried | tvm/3rdparty/libbacktrace/elf.c:3184-3661 | Blocks of 26 or 27 bytes, whose second chunk resets the state, the properties as well, or also the dictionary, and which carry sixteen letters a. |
| LzmaExample.UncompressTwice | tvm/3rdparty/libbacktrace/elf.c:3184-3661 | They decode to these letters, exactly when there is room, whatever the probabilities and distances held before. |
| LzmaExample.UncompressPlain | tvm/3rdparty/libbacktrace/elf.c:3214-3258 | A block of two uncompressed chunks. |
| FreeList.InsertConserves | tvm/3rdparty/libbacktrace/mmap.c:73-107 | Freeing into the list neither loses nor duplicates a block. |
| FreeList.InsertEvictsSmallest | tvm/3rdparty/libbacktrace/mmap.c:76-106 | At most sixteen blocks are kept; a block of header size or more is leaked only from a full list in which none that stays is smaller. |
| FreeList.LeaksExactly | tvm/3rdparty/libbacktrace/mmap.c:76-106 | A freed block is leaked if and only if it has less than 16 bytes, or the list has sixteen entries of which none is smaller. |
| FreeList.SmallestIsLeast | tvm/3rdparty/libbacktrace/mmap.c:90-95 | The scan finds the first of the smallest blocks. |
| FreeList.FirstFit | tvm/3rdparty/libbacktrace/mmap.c:139-158 | The search stops at the first block that is large enough. |
| FreeList.RoundUp | tvm/3rdparty/libbacktrace/mmap.c:150-150 | Rounding gives the next multiple. |
| FreeList.List.FreeLocked | tvm/3rdparty/libbacktrace/mmap.c:73-107 | The in-place insertion is the specified one. |
| FreeList.List.AllocLocked | tvm/3rdparty/libbacktrace/mmap.c:137-160 | First fit unlinks the block and puts back what rounding up to eight bytes leaves. |
| AllocProtocol.StepKeepsInv | tvm/3rdparty/libbacktrace/mmap.c:113-238 | Every step of every thread keeps the invariant: one owner per byte, a list of at most sixteen aligned blocks, one lock holder. |
| AllocProtocol.RunKeepsInv | tvm/3rdparty/libbacktrace/mmap.c:113-238 | The invariant holds in every state of every run, for any number of threads. |
| AllocProtocol.BlocksApart | tvm/3rdparty/libbacktrace/mmap.c:113-238 | In every reachable state free, live and leaked blocks do not overlap, and the list has at most 16 entries. |
| AllocProtocol.AllocKeepsBytes | tvm/3rdparty/libbacktrace/mmap.c:113-189 | A step of an allocation moves bytes between owners and gains only freshly mapped pages. |
| AllocProtocol.FreeKeepsBytes | tvm/3rdparty/libbacktrace/mmap.c:194-238 | A step of a free moves bytes between owners and loses only unmapped blocks. |
| AllocProtocol.UnmapsWholePages | tvm/3rdparty/libbacktrace/mmap.c:206-218 | munmap is given whole pages, 65536 bytes or more, none of which is free, owned by a caller, leaked or in the hands of another thread; all other bytes keep their owner. |
| AllocProtocol.MapsFewestPages | tvm/3rdparty/libbacktrace/mmap.c:167-172 | mmap is asked for the fewest pages that hold the size. |
| AllocProtocol.SplitLeaksLittle | tvm/3rdparty/libbacktrace/mmap.c:148-153 | Rounding loses fewer than eight bytes of a block, and what is put back begins at a multiple of eight. |
| AllocProtocol.OnlyHolderTouchesList | tvm/3rdparty/libbacktrace/mmap.c:127-162 | Only a thread that holds the lock changes the free list. |
| AllocProtocol.ReturnsCover | tvm/3rdparty/libbacktrace/mmap.c:113-189 | An allocation that returns has been refused pages or adds exactly one aligned block of the size asked for to those its callers own; a free adds none. |
| AllocProtocol.NeverBlocked | tvm/3rdparty/libbacktrace/mmap.c:132-189 | A thread inside a call can always take its next step, whatever the others do. |
| AllocProtocol.CallIsBounded | tvm/3rdparty/libbacktrace/mmap.c:113-238 | Whatever the others do in between, a call is over after at most ten steps of its own. |
| AllocProtocol.LeavesList | tvm/3rdparty/libbacktrace/mmap.c:76-106 | A block leaves the list only to satisfy an allocation, or evicted by a larger one from a full list in which none is smaller. |
| Fp16.Clz | tvm/3rdparty/compiler-rt/builtin_fp16.h:33-61 | The number of leading zeros of a 32-bit word. |
| Fp16.MagnitudeMono | tvm/3rdparty/compiler-rt/builtin_fp16.h:65-165 | Bit patterns without sign are ordered like the numbers they stand for. |
| Fp16.RangeTest | tvm/3rdparty/compiler-rt/builtin_fp16.h:108-108 | One wrapping unsigned comparison tests both ends of the range. |
| Fp16.SubExact | tvm/3rdparty/compiler-rt/builtin_fp16.h:112-113 | The wrapping rebias in the narrow word is the true difference. |
| Fp16.StickyTest | tvm/3rdparty/compiler-rt/builtin_fp16.h:144-144 | The shift that computes the sticky bit loses exactly the bits it should. |
| Fp16.StickyRounds | tvm/3rdparty/compiler-rt/builtin_fp16.h:144-152 | Comparing the rounding bits with the sticky bit decides like comparing all dropped bits. |
| Fp16.ChooseRounds | tvm/3rdparty/compiler-rt/builtin_fp16.h:115-120 | Picking the nearer of two neighbours, the even one on a tie, is rounding to nearest even among all numbers of the format, infinity included. |
| Fp16.RoundingUnique | tvm/3rdparty/compiler-rt/builtin_fp16.h:65-165 | A value has only one correct rounding. |
| Fp16.TruncXfYf2 | tvm/3rdparty/compiler-rt/builtin_fp16.h:65-165 | For every input: same sign, the nearest number with ties to even (subnormals and overflow to infinity included), and for a NaN the quiet NaN with the upper payload bits. |
| Fp16.TruncationUnique | tvm/3rdparty/compiler-rt/builtin_fp16.h:65-165 | That determines the result. |
| Fp16.ExtendXfYf2 | tvm/3rdparty/compiler-rt/builtin_fp16.h:167-244 | For every input: same sign and exactly the same value; infinity for infinity; the same payload for a NaN. |
| Fp16.RoundTrip | tvm/3rdparty/compiler-rt/builtin_fp16.h:65-244 | Truncating an extended value gives back the original bits if and only if it is not a signalling NaN. |
| Fp16.SingleAndHalf | tvm/src/runtime/builtin_fp16.cc:32-38 | The parameters used for float and half satisfy the conditions of the other results. |
| HalfPrecision.FloatToHalf | tvm/src/runtime/builtin_fp16.cc:32-34 | What the correct truncation of a float is in plain numbers. |
| HalfPrecision.TruncateFloat | tvm/src/runtime/builtin_fp16.cc:32-34 | In plain numbers: normal halves are the float without its last 13 bits, rounded to nearest even, the exponent less 112; the rest are multiples of 2^-24, infinity from 65520 on, or a quiet NaN. |
| HalfPrecision.ExtendHalf | tvm/src/runtime/builtin_fp16.cc:36-38 | The bit pattern of the float for every half but zero. |
| HalfPrecision.KnownHalves | tvm/src/runtime/builtin_fp16.cc:32-34 | What one and its ties, the ends of the range of halves, and a NaN are truncated to. |
| QSort.SwapBytes | tvm/3rdparty/libbacktrace/sort.c:47-58 | Swapping byte by byte exchanges two elements and changes nothing else. |
| QSort.Partition | tvm/3rdparty/libbacktrace/sort.c:75-90 | The pivot ends where everything before it is below it and nothing after it is; the range is rearranged. |
| QSort.QSort | tvm/3rdparty/libbacktrace/sort.c:60-108 | A permutation for every comparator, sorted for every total preorder, nothing outside the range changed, recursion depth at most floor(log2(count)) + 1. |
| QSort.PlaceLeft | tvm/3rdparty/libbacktrace/sort.c:75-108 | Sorting the part before the pivot puts it and the pivot in their final place. |
| QSort.SortedUnique | tvm/3rdparty/libbacktrace/sort.c:60-108 | With a comparator that tells elements apart there is only one sorted order, so an unstable sort has no choice. |
| Search.BSearch | tvm/3rdparty/libbacktrace/dwarf.c:4175-4179 | Some entry that compares equal, or none when there is none; nothing more is promised. |
| IntervalIndex.ByRangeIsPreorder | tvm/3rdparty/libbacktrace/dwarf.c:1486-1501 | The comparator of the address tables is a total preorder, as the sort requires. |
| IntervalIndex.NamesArePreorder | tvm/3rdparty/libbacktrace/dwarf.c:1500-1500 | So is its tie-break by name. |
| IntervalIndex.SortTable | tvm/3rdparty/libbacktrace/dwarf.c:3873-3874 | Sorting leaves the same entries, ordered by start, larger ranges first, and then by the tie, before the sentinel. |
| IntervalIndex.SearchIsPartitioned | tvm/3rdparty/libbacktrace/dwarf.c:1509-1523 | The loose comparator is consistent with the order of the table, as bsearch requires. |
| IntervalIndex.Lookup | tvm/3rdparty/libbacktrace/dwarf.c:3986-4022 | Whichever accepted entry bsearch returns, the walks end at the last entry containing pc among those with the greatest start not above pc; none is found only if there is none. |
| IntervalIndex.WalkBack | tvm/3rdparty/libbacktrace/dwarf.c:3912-3932 | The backward walk from the last entry that starts at or below pc. |
| IntervalIndex.MatchIsSmallest | tvm/3rdparty/libbacktrace/dwarf.c:1483-1485 | That entry is unique and the smallest of those with its start that contain pc. |
| IntervalIndex.OneEntry | tvm/3rdparty/libbacktrace/dwarf.c:3912-3932 | A range is found at its first address and at the one before its end, and not at its end. |
| IntervalIndex.FoundIsLast | tvm/3rdparty/libbacktrace/dwarf.c:1483-1485 | Of the entries with the same range the one found is the last by the tie. |
| IntervalIndex.StrCmpMeans | tvm/3rdparty/libbacktrace/dwarf.c:1500-1500 | A name comes before another if it is a proper prefix of it or has the smaller character at the first difference. |
| IntervalIndex.FoundExactly | tvm/3rdparty/libbacktrace/dwarf.c:4183-4205 | A lookup succeeds if and only if one of the entries with the greatest start not above pc contains it. |
| IntervalIndex.EnclosingMissed | tvm/3rdparty/libbacktrace/dwarf.c:4183-4205 | A concrete table in which an enclosing range contains pc and the lookup still finds nothing. |
| IntervalIndex.NeverMisses | tvm/3rdparty/libbacktrace/dwarf.c:3986-4022 | No address that some entry contains is ever missed if and only if, for all entries with one start, every entry that starts earlier and reaches among them ends no later than the longest of them, or that one ends no earlier than the next start. |
| UnitIndex.SortUnits | tvm/3rdparty/libbacktrace/dwarf.c:4303-4304 | The table of unit address ranges is sorted in the same way, ties by the offset of the line program. |
| UnitIndex.OffsetsArePreorder | tvm/3rdparty/libbacktrace/dwarf.c:1570-1590 | The comparator of that table is a total preorder. |
| UnitIndex.GreatestOffset | tvm/3rdparty/libbacktrace/dwarf.c:1570-1590 | Of several units with the same range the match has the greatest offset. |
| UnitIndex.FindUnit | tvm/3rdparty/libbacktrace/dwarf.c:3986-4051 | The unit for pc: from the match, back over units without line information while the entry before contains pc as well. |
| UnitIndex.ChosenUnique | tvm/3rdparty/libbacktrace/dwarf.c:3986-4051 | The table and pc determine it. |
| UnitIndex.UselessSkipped | tvm/3rdparty/libbacktrace/dwarf.c:3986-4051 | Three nested units, of which the inner two could not be read: the outer one is chosen. |
| InlinedCalls.SortFunctions | tvm/3rdparty/libbacktrace/dwarf.c:3873-3874 | The function tables are sorted in the same way, ties by name. |
| InlinedCalls.GreatestName | tvm/3rdparty/libbacktrace/dwarf.c:1500-1500 | Of several functions with the same range the one found has the greatest name. |
| InlinedCalls.AliasedFunctions | tvm/3rdparty/libbacktrace/dwarf.c:1500-1500 | Of two functions a and b with one range, b is found. |
| InlinedCalls.ReportInlinedFunctions | tvm/3rdparty/libbacktrace/dwarf.c:3884-3955 | Reports the chain of calls inlined at pc, innermost first, each at the call site of the one before, and stops at the first callback that returns non-zero. |
| InlinedCalls.FrameAt | tvm/3rdparty/libbacktrace/dwarf.c:3936-3953 | Name and position of every reported frame. |
| InlinedCalls.ChainUnique | tvm/3rdparty/libbacktrace/dwarf.c:3884-3955 | The chain is determined by the function and pc. |
| InlinedCalls.ReportFunctions | tvm/3rdparty/libbacktrace/dwarf.c:4169-4218 | After the inlined calls the enclosing function is reported; without a function only the line. |
| LineTable.LineVector.AddLine | tvm/3rdparty/libbacktrace/dwarf.c:2612-2647 | Rows are numbered in the order they are added; when a row is ignored, file names being compared as pointers. |
| LineTable.IgnoresRepetitions | tvm/3rdparty/libbacktrace/dwarf.c:2621-2630 | The rows ignored are exactly the repetitions of the row before if and only if the base address is zero. |
| LineTable.StableSortSorts | tvm/3rdparty/libbacktrace/dwarf.c:1612-1633 | The reference stable sort by address is a sorted permutation under the comparator on (pc, idx). |
| LineTable.AnySortIsStable | tvm/3rdparty/libbacktrace/dwarf.c:1612-1633 | Any sort by (pc, idx) gives the stable sort by address. |
| LineTable.SortLines | tvm/3rdparty/libbacktrace/dwarf.c:3304-3322 | The in-place quicksort leaves the stable sort of the added rows, and the sentinel behind it. |
| LineTable.FindLine | tvm/3rdparty/libbacktrace/dwarf.c:4123-4126 | Of the added rows with the greatest address not above pc, the last added; nothing if and only if pc is below every row. |
| LineTable.LineIsUnique | tvm/3rdparty/libbacktrace/dwarf.c:1635-1654 | That row is unique. |
| Leb128.DwarfBuf.Require | tvm/3rdparty/libbacktrace/dwarf.c:758-772 | Succeeds exactly when enough bytes are left; otherwise an underflow is recorded. |
| Leb128.DwarfBuf.Advance | tvm/3rdparty/libbacktrace/dwarf.c:776-785 | Moves past the bytes if they are there, and changes nothing but the flag if not. |
| Leb128.DwarfBuf.ReadByte | tvm/3rdparty/libbacktrace/dwarf.c:807-815 | The next byte, or zero with an underflow recorded. |
| Leb128.ReadUleb128 | tvm/3rdparty/libbacktrace/dwarf.c:956-987 | The value of the number modulo 2^64 if it has at most 613566757 bytes, for a longer one what the wrapped shift gives, and zero with an underflow at the end of the buffer; in every case the buffer is left behind the number. |
| Leb128.GatheredExact | tvm/3rdparty/libbacktrace/dwarf.c:971-982 | Up to that length the loop gathers the groups of the number modulo 2^64. |
| Leb128.ShiftWraps | tvm/3rdparty/libbacktrace/dwarf.c:973-982 | A number of one byte more that is read as 8 and is 0 modulo 2^64. |
| Leb128.ReadSleb128 | tvm/3rdparty/libbacktrace/dwarf.c:991-1025 | The same for signed numbers of fewer bytes, sign extension included. |
| Leb128.Leb128Len | tvm/3rdparty/libbacktrace/dwarf.c:1029-1041 | The number of bytes the readers consume. |
| Leb128.UlebRoundTrip | tvm/3rdparty/libbacktrace/dwarf.c:956-987 | Decoding inverts the unsigned encoder of section 7.6 of DWARF Version 5, whatever follows. |
| Leb128.SlebRoundTrip | tvm/3rdparty/libbacktrace/dwarf.c:991-1025 | Decoding inverts the signed encoder of that section. |
| Leb128.WordsRoundTrip | tvm/3rdparty/libbacktrace/dwarf.c:956-1025 | For all 64-bit values the readers return the number that was encoded and stop right behind it. |
| DwarfExamples.NumbersRead | tvm/3rdparty/libbacktrace/dwarf.c:956-1025 | Numbers of the tables of section 7.6 of DWARF Version 5, and what they are read as. |
| Abbrevs.CountAttrs | tvm/3rdparty/libbacktrace/dwarf.c:1769-1779 | The counting loop passes exactly the attributes that the format defines, or runs into the end of the input. |
| Abbrevs.FillAttrs | tvm/3rdparty/libbacktrace/dwarf.c:1794-1812 | Stores exactly the counted attributes, each where it belongs. |
| Abbrevs.SkipBody | tvm/3rdparty/libbacktrace/dwarf.c:1718-1732 | Skips what follows the code of an abbreviation, or runs into the end of the input. |
| Abbrevs.CountAbbrevs | tvm/3rdparty/libbacktrace/dwarf.c:1711-1736 | Counts exactly the abbreviations of the list; an underflow is recorded if and only if the list is cut. |
| Abbrevs.ReadBody | tvm/3rdparty/libbacktrace/dwarf.c:1765-1815 | Reads one abbreviation, its attributes counted in a copy of the buffer first. |
| Abbrevs.FillAbbrevs | tvm/3rdparty/libbacktrace/dwarf.c:1750-1819 | Stores exactly as many abbreviations as were counted. |
| Abbrevs.ReadAbbrevs | tvm/3rdparty/libbacktrace/dwarf.c:1681-1824 | Succeeds if and only if the offset is inside the section and the list is complete, and then holds its entries in order of their codes. |
| Abbrevs.LookupAbbrev | tvm/3rdparty/libbacktrace/dwarf.c:1833-1857 | Direct slot or binary search: finds an abbreviation with the code if and only if the list has one. |
| Abbrevs.CodeIsUnique | tvm/3rdparty/libbacktrace/dwarf.c:1666-1675 | With distinct codes the one found is the only one. |
| Abbrevs.ListRoundTrip | tvm/3rdparty/libbacktrace/dwarf.c:1711-1822 | A table written in the format of section 7.5.3 of DWARF Version 5 is read back, whatever follows it. |
| DwarfExamples.TableParses | tvm/3rdparty/libbacktrace/dwarf.c:1711-1822 | Eleven bytes with an attribute whose value stands in the table (form 0x21), and what they are read as. |
| DwarfExamples.ReadTable | tvm/3rdparty/libbacktrace/dwarf.c:1681-1857 | The table is read and searched: code 1 is found, code 2 is not. |
| AppendList.StepKeepsInv | tvm/3rdparty/libbacktrace/elf.c:728-749 | Every load and every swap of every thread keeps the invariant of the list. |
| AppendList.ListUnique | tvm/3rdparty/libbacktrace/elf.c:728-749 | Only one list can be read off the pointers. |
| AppendList.ListGrows | tvm/3rdparty/libbacktrace/dwarf.c:4361-4384 | In every run the list only grows at its end, by one node at a time. |
| AppendList.NoneLostOrDuplicated | tvm/3rdparty/libbacktrace/dwarf.c:4361-4384 | At every moment the list has exactly the nodes whose append has returned, each once, and keeps them. |
| AppendList.ReadersSeePrefix | tvm/3rdparty/libbacktrace/dwarf.c:4249-4262 | What a reader has seen is the front part of the list of every later state. |
| AppendList.EndSeesAll | tvm/3rdparty/libbacktrace/elf.c:780-794 | A reader that comes to the end has seen the whole list of that moment. |
| AppendList.FailureMeansGrowth | tvm/3rdparty/libbacktrace/elf.c:746-747 | A swap fails only if the list has grown since the thread saw its end. |
| AppendList.RetriesBounded | tvm/3rdparty/libbacktrace/elf.c:731-748 | A thread tries again at most once for every node in the list. |
| LinkedList.List.Append | tvm/3rdparty/libbacktrace/elf.c:716-725 | Without threads: the node is linked behind the last one. |
| LinkedList.List.Find | tvm/3rdparty/libbacktrace/elf.c:765-776 | Without threads: the first node that is accepted, or none. |

## Left out

- ZlibStreams.ZlibInflate: what is decoded if something that is not right behind a checksum, or a stored block that is misread, still looks valid is not stated.
- ZlibStreams.InflateAndVerify: the input has at least four bytes; of a shorter one the source would read the checksum in front of it.
- Inflate.ReadStored: the bytes up to the next word boundary behind the input must be readable, as in the source, which reads up to three of them.
- Inflate.DefaultTables: the constant tables are rebuilt by the generator that stands beside them; the printed constants themselves are not compared with its result.
- DynamicHeader.ReadCodeLengthCode: written as a loop that refills after every five fields, where the source unrolls it with gotos.
- Adler32.AddSixteen: written as a loop where the source is unrolled.
- TableBuilder.LinkSymbols: the work area for the linked lists, a part of the caller's buffer, is a local sequence.
- LzmaChunk.DecodePacket: a distance of 2^32, whose 32-bit successor wraps to zero so that the copy never ends, is excluded from the packets (LzmaPackets.Reachable) and refused by the model.
- LzmaBlock.UncompressBlock: the chunks of one block; block header, the .xz container with its variable-length numbers, CRC-32 and padding are not modelled. Before the first reset the distances are a parameter and the probabilities hold any valid ones, where the source has memory it has not set.
- AllocProtocol.StepKeepsInv: the state machine has one step per lock operation, list operation and system call; list operations are single steps because only the holder of the lock changes the list (AllocProtocol.OnlyHolderTouchesList). Allocations of size zero, sizes that wrap when rounded, and the unthreaded mode are not modelled; page sizes are multiples of eight.
- FreeList.List.FreeLocked: the links between free blocks are a sequence, not pointers stored inside the blocks.
- Fp16.TruncXfYf2: NaN results are characterised as computed (quiet bit set, upper payload bits kept), IEEE 754 leaves them open. Integer promotion of source words narrower than int is not modelled; words wrap at their own width.
- QSort.QSort: sorts an array of elements; QSort.SwapBytes shows separately that the byte-wise swap exchanges two elements.
- InlinedCalls.ReportInlinedFunctions: the callback is a function of the frame; state it may keep is not modelled.
- LineTable.LineVector.AddLine: the index is unbounded; the source stores it in an int. File names are only their addresses.
- Abbrevs.ReadAbbrevs: allocation always succeeds.
- Leb128.ReadUleb128: the error callback that reports an overflow of 64 bits, and the text of messages, are not modelled; the value is.
- UnitIndex.FindUnit: which units have line information is part of the table; the source reads it on demand, possibly in another thread.
- AppendList.StepKeepsInv: loads and swaps are atomic and sequentially consistent; the contents of nodes are not modelled.
- ELF, Mach-O and PE parsing, file views, debuglink and build-id search, unwinding and printing: format and file plumbing.
- DWARF line programs, attribute forms, ranges, and name and path resolution: decoding of many small formats without a property across them.
- The remaining Python and C++ of the repository, which calls into libraries outside it.
