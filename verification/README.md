# Verified models of ewfprobe's decoders, virtual disks and streams

This project models, in Dafny, the parts of `ewfprobe.py` (and of three fixture tools) whose
correctness is hardest to see, and proves what they are for.

**LZFSE and LZVN.** `FseTable` builds the finite-state-entropy tables and proves that a symbol's states
tile the state numbers; `FseBits` proves the backward 64-bit reader reads one big integer from the top;
`LzfseTables`, `LzfseLiterals` and `LzfseMatches` are the value tables, the four interleaved literal
states and the L, M, D triples, each undone by an encoder written here; `LzCopy` gives match copies
their byte-at-a-time meaning; `Lzvn` is the opcode machine and its encoder; `FreqCode`, `Struct` and
`LzfseHeader` are the packed frequencies and the two headers; `LzfseBlock`, `LzfseEncode` and
`LzfseStream` put blocks and whole streams together, and `CutStream` says what becomes of a stream cut
short. `HeaderRewrite` is the fixture tool's own reading of the headers, `OwnBits` says which literals do
not depend on the bytes before their payload, `RewrittenStream` says when a stream decompresses alike after
the tool has rewritten it, and `RewriteDiffers` is one that does not. `LzfseNumbers` has the symbols, the
limits and the header fields in numbers, and `ExampleStream` one stream of 830 bytes and what it
decompresses to.

**Virtual disks.** `Crc32c`, `VhdxEntry`, `VhdxLog`, `VhdxReplay` and `VhdxOverlay` are the VHDX log
(section 2.3.3 of [MS-VHDX]): its checksum, its entries in a ring, the search for the active sequence,
and the file read through the updates laid over it. `VhdxHidden` is a log whose search passes over a
better sequence, and `VhdxWriter` writes the entries that the reader reads back. `VhdxBat` is the arithmetic
of the block table (section 2.5). `DiskMaps` says, byte by byte, where VHD, VHDX and QCOW disks keep their
data, and what a chain of parent disks of any depth means; `DiskNumbers` has the same with every flag, shift
and bit order written out; `DiskLayers` is the code that reads them by chunks, runs of
sectors, clusters and subclusters, proved against that meaning. `VhdxDisk` puts a VHDX together: its log
replayed, its block table read and tested, and the disk of the file with its log applied.

**The stream.** `ImageStream` is the seekable stream with its cache and its count of padded zeros, over
the ordered list of `PaddedSpans`. Beside it stand `Aff4Map` (AFF4 Standard v1.0a, section 4), `L01Tree`,
the entry parser with its explicit stack, and `Intervals`, two interval rewritings of the tools.

`Bits`, `BitArithmetic`, `Division`, `Prelude` and `Sorting` hold what the others share: shifts and masks on
naturals, quotients and remainders by a variable, optional values and errors, and sorted lists.

Code that changes things step by step is a method here, and an object with changing fields is a class;
each such method is proved against a function or a predicate that says what it computes, and the
properties are lemmas about that. A byte string is a sequence of numbers below 256; every Python integer
in the modelled code is a natural or an integer, without a width, as in Python.

Where the code and its documentation differ, the code is followed. `_vhdx_replay` does not reject a log
of no bytes: its search then divides by the log's length, so the model raises for it.

The search of the log does not always keep the valid sequence of the greatest number. After a valid
sequence it goes on past the lengths its entries state, and an entry may state more than its header,
descriptors and data sectors fill; a sequence that starts in that slack can be passed over
(`VhdxHidden.HiddenExample`). It is the only way to miss one (`VhdxLog.GreatestIff`), so a log whose
entries state no more than they fill, as the format has them, is searched rightly
(`VhdxLog.SnugGreatest`).

`_lzfse_block` reads its literals with a floor of zero, so it loads bytes from before their payload, and
`v2_to_v1` changes those. To load them does not matter, only to pull them: a literal stream that pulls more
bits than it has takes states from the header, and `RewriteDiffers.RewriteDiffers` is one that decompresses
to other bytes once rewritten. When all literals but the last four of each block, whose pulls choose states
that no literal comes from, pull none but bits above the first header, the rewritten stream decompresses
exactly as the original, or raises with it (`RewrittenStream.StreamRewritten`). Every stream an encoder
writes is such a one, with spare bits under its literals or with none (`RewrittenStream.EncodedRewritten`).

`_zero` asks for a negative number of zero bytes, and raises, exactly when `Intervals.GapAmong` holds of
its ranges: past the end, a kept range starts beyond the reach of all that come before it. The region it
was given is right even then. When the region passes the end of the buffer, the buffer grows by one zero
for each position to clear there, put on its end: a kept range past the end leaves no gap.

`coverage` puts the gaps under a label of its own; a target with that label for a name loses its total to
it, and the totals are then too small (`Aff4Map.RightIff`).

The stream is proved on images whose chunks tell of the zeros they put where a unit's data ran out, the
units being disjoint (`ImageStream.UnitsConsistent` says what follows from that, and is all that is used).
Frequency tables are over power-of-two state counts, as all of the code's are.

## Model

| member | source | states |
|---|---|---|
| FseTable.FseSpread | ewfprobe.py:2002-2024 | the loops that append the states give the table `Spread` of the frequencies, and raise exactly when they sum above the state count |
| FseTable.SpreadAt | ewfprobe.py:2013-2022 | symbol `sym` owns consecutive states, one for each of its frequency, after those of all smaller symbols |
| FseTable.Tiling | ewfprobe.py:2016-2022 | every state number lies in the interval of exactly one of a symbol's states |
| FseTable.TilingUnique | ewfprobe.py:2016-2022 | a state whose interval holds a number is the one the encoder's step picks for it |
| FseTable.StepInRange | ewfprobe.py:2016-2022 | a state's interval ends at or before the state count, so a step always lands in range |
| FseTable.OwnedIs | ewfprobe.py:2013-2022 | every state below the sum of the frequencies belongs to a symbol that has one |
| FseTable.UnownedIffShort | ewfprobe.py:2006-2008 | there is a state no symbol owns if and only if the frequencies fall short of the state count |
| FseTable.SpreadClosed | ewfprobe.py:2009-2024 | every cell of a table names a listed symbol and steps inside the table, whatever bits it pulls |
| FseTable.StepRoundTrip | ewfprobe.py:2016-2022 | for any symbol with a state and any next state, the cell at the state before steps to it when it pulls the difference |
| FseTable.CellNumbers | ewfprobe.py:2009-2022 | a symbol of frequency f pulls the bits that bring f up to the state count, and its later states one bit less; each cell's symbol, bits and delta in closed form |
| FseBits.FseReader.constructor | ewfprobe.py:2037-2047 | what a reader that opens has left is the buffer's bits below its stated end |
| FseBits.FseReader.Open | ewfprobe.py:2037-2047 | opening raises exactly when the bit count is out of range, the first load passes the floor, or a bit is set above the stated end |
| FseBits.Loaded | ewfprobe.py:2040-2047 | the test of the first load is exactly that the stated bits are all there are |
| FseBits.FseReader.Flush | ewfprobe.py:2049-2057 | a flush leaves what is to be read unchanged, fails exactly when fewer than 56 bits are left, and else holds 56 to 63 bits |
| FseBits.Flushed | ewfprobe.py:2049-2057 | the floor test fails exactly when fewer than 56 bits are left; a flush keeps the integer that is left |
| FseBits.HeldAfterFlush | ewfprobe.py:2050-2056 | a flush brings the accumulator to 56 bits and the odd bits of what is left |
| FseBits.FseReader.Pull | ewfprobe.py:2059-2065 | a pull gives the top bits of what is left and leaves the rest, and fails exactly when the accumulator holds fewer |
| FseBits.Pulled | ewfprobe.py:2059-2065 | shifting and masking the accumulator takes the top bits of the one big integer |
| FseBits.InlineFlush | ewfprobe.py:2138-2144 | the flush written out in the two loops does what the reader's does |
| FseBits.Drive | ewfprobe.py:2049-2065 | any run of flushes and pulls gives what the specification on the big integer gives, up to the call that raises |
| FseBits.RunReadsDown | ewfprobe.py:2049-2065 | the values pulled, written one below the other, are the top bits of the integer that was there |
| LzCopy.CopyMatch | ewfprobe.py:1790-1802 | a copy raises exactly for a distance of nothing or past the start, and else adds the bytes of the byte-at-a-time recurrence |
| LzCopy.BlockCopy | ewfprobe.py:1797-1798 | copying a slice at once is the byte recurrence when the distance is at least the length |
| LzCopy.TiledCopy | ewfprobe.py:1799-1802 | repeating the last bytes and part of them is the byte recurrence when the copy overlaps itself |
| LzfseTables.LmdRanges | ewfprobe.py:1948-1958 | the L, M and D symbols' ranges of values follow one another without a gap up to 315, 2359 and 262139 |
| LzfseNumbers.SymbolNumbers | ewfprobe.py:1948-1951 | L and M symbols below 16 stand for themselves; the other L symbols start at 16, 20, 28 and 60 with 2, 3, 5 and 8 extra bits, the other M symbols at 16, 24, 56 and 312 with 3, 5, 8 and 11 |
| LzfseNumbers.DistanceNumbers | ewfprobe.py:1952-1958 | D symbol 4q + r stands for the 2^q distances from (4 + r) 2^q - 4 |
| LzfseNumbers.LValue | ewfprobe.py:2191-2197 | what a state of an L table gives, by its symbol: the number 16, 20, 28 or 60 and the last 2, 3, 5 or 8 bits pulled, or the symbol itself |
| LzfseNumbers.MValue | ewfprobe.py:2198-2204 | what a state of an M table gives: 16, 24, 56 or 312 and the last 3, 5, 8 or 11 bits pulled, or the symbol itself |
| LzfseNumbers.DValue | ewfprobe.py:2205-2211 | what a state of a D table gives: its symbol's first distance and the last bits pulled, a quarter of the symbol's number of them |
| LzfseTables.SymbolHolds | ewfprobe.py:1948-1958 | every value below the limit lies in the range of the symbol found for it |
| LzfseTables.ValueTableOf | ewfprobe.py:2068-2079 | the loop gives each state its symbol's extra bits and base |
| LzfseTables.ValuesClosed | ewfprobe.py:2068-2079 | every state of a value table steps inside it and pulls at most the table's bits and the largest extra bits |
| LzfseTables.ValueRoundTrip | ewfprobe.py:2191-2197 | a value pushed for any next state is read back, with that state and the bits below untouched, in at most the table's bits and extra bits |
| LzfseLiterals.PushLiteralRoundTrip | ewfprobe.py:2145-2151 | a literal pushed is the literal read, in at most ten bits |
| LzfseLiterals.RoundTrip | ewfprobe.py:2134-2172 | for any table and any literals it has states for, the four interleaved states read back the list, the final states and the rest of the stream |
| LzfseLiterals.EncodeAbove | ewfprobe.py:2124-2126 | bytes further down the buffer change nothing the encoder pushes |
| LzfseLiterals.Stanza | ewfprobe.py:2145-2151 | with ten bits held the "runs out" test is never true, and the stanza takes the literal off what is left |
| LzfseLiterals.Group | ewfprobe.py:2145-2172 | after a flush, four literals never run out of bits, and only an unowned state raises |
| LzfseLiterals.DecodeLoop | ewfprobe.py:2131-2174 | the literal loop gives what the stream says, whole groups of four, and raises exactly when it does |
| LzfseMatches.PushMatchRoundTrip | ewfprobe.py:2191-2211 | an L, M, D triple pushed is the triple read, in at most 54 bits |
| LzfseMatches.RoundTrip | ewfprobe.py:2183-2211 | any list of matches the tables carry is read back from what the encoder writes, with the final states and the rest, and raises exactly when its last match finds fewer than 56 bits |
| LzfseMatches.Stanza | ewfprobe.py:2191-2197 | with a symbol's bits held the "runs out" test is never true, and the value is the one read off the big integer |
| LzfseMatches.WriteMatch | ewfprobe.py:2212-2234 | the literals and the copy written are the match's meaning, with every test of the loop |
| LzfseMatches.Perform | ewfprobe.py:2212-2234 | a match only adds to the output, exactly its literals and its length, and never past the limit |
| LzfseNumbers.MatchEffect | ewfprobe.py:2212-2236 | when a match can be done, and each byte of the output after it: its literals, then the byte one distance before, the distance its own or the last one |
| LzfseMatches.MatchStep | ewfprobe.py:2184-2234 | one turn of the loop does one match of the stream and leaves the rest |
| LzfseMatches.MatchLoop | ewfprobe.py:2178-2236 | the match loop writes what the stream's matches mean and raises exactly when they do |
| Lzvn.LzvnKinds | ewfprobe.py:1811-1830 | the table built is the kind of every opcode |
| Lzvn.ParseEncode | ewfprobe.py:1869-1923 | an encoded instruction, with anything after it, parses back to itself and its own length |
| Lzvn.EncodeParse | ewfprobe.py:1869-1923 | an instruction the machine reads is one the encoder would have written, byte for byte |
| Lzvn.Perform | ewfprobe.py:1892-1934 | an instruction only adds to the output, exactly its literals and its match, within the limit |
| Lzvn.OpEffect | ewfprobe.py:1892-1934 | when an instruction can be done, each byte of the output after it, and the distance in force, which only opcodes that carry one change |
| Lzvn.Run | ewfprobe.py:1866-1934 | earlier output is kept, at most the limit is reached, and the rest is a suffix at least eight bytes on |
| Lzvn.StreamRoundTrip | ewfprobe.py:1836-1934 | an encoded list of instructions runs to what the list means, and stops after its end marker |
| Lzvn.StreamParses | ewfprobe.py:1836-1934 | every stream the machine accepts is the encoding of a list that means what it wrote |
| Lzvn.LzvnDecompress | ewfprobe.py:1862-1934 | the loop raises exactly when the run does, else appends its output and returns the offset after the end marker; output only grows, by at most the limit |
| FreqCode.CodeReads | ewfprobe.py:1966-1970 | each frequency's code is read with its own length and value, whatever follows it |
| FreqCode.RoundTrip | ewfprobe.py:1973-1999 | any frequencies up to 1047, packed, decode to themselves and leave what was above them |
| FreqCode.V2FreqsLoop | ewfprobe.py:1978-1999 | the refilling loop decodes the bytes as one integer, and tests that the codes fill the header exactly |
| FreqCode.LenientAgrees | ewfprobe.py:1981-1996 | when no code is cut short, reading without that test gives the same frequencies |
| LzfseHeader.V2RoundTrip | ewfprobe.py:2086-2098 | any header that fits its fields, written as bvx2, parses to itself and its own size |
| LzfseHeader.V1RoundTrip | ewfprobe.py:2099-2107 | any header that fits its fields, written as bvx1, parses to itself |
| LzfseHeader.V0Fields | ewfprobe.py:2093-2094 | the first packed word gives back its four fields |
| LzfseHeader.V1Fields | ewfprobe.py:2095-2096 | the second packed word gives back its six fields |
| LzfseHeader.V2Fields | ewfprobe.py:2090-2097 | the third packed word gives back its four fields |
| Struct.UnpackPack | ewfprobe.py:2103-2107 | fields packed little-endian unpack to themselves |
| HeaderRewrite.ReadFreqs | tools/make_decmpfs_streams.py:61-74 | the second reading of the frequency code, which tests nothing, gives what the blob's bytes before the stated size hold, and raises exactly when the blob is shorter than that size and ends less than 25 bits after the codes before the last |
| HeaderRewrite.AcceptedLenient | tools/make_decmpfs_streams.py:61-74 | frequencies the decoder accepts are those the second reading gives |
| HeaderRewrite.V2ToV1 | tools/make_decmpfs_streams.py:52-85 | for every blob: it raises exactly when the blob is too short, is not bvx2 or ends inside its frequencies, and else gives the bvx1 encoding of the fields read and what followed the stated size; for a header the decoder accepts those are the decoder's fields |
| HeaderRewrite.RewriteKeeps | tools/make_decmpfs_streams.py:52-85 | the header written parses to the same counts, states, bit offsets and frequencies, and the payload after it is untouched |
| LzfseNumbers.PlainFields | ewfprobe.py:2101-2107 | every field of a bvx1 header is the number at its own bytes |
| LzfseNumbers.PlainWritten | tools/make_decmpfs_streams.py:78-85 | the written header also holds the sum of the payloads, and ends in two zeros |
| LzfseNumbers.PackedFields | ewfprobe.py:2086-2099 | every field of a bvx2 header is at its own bits of the three numbers it packs |
| LzfseNumbers.RewrittenFields | tools/make_decmpfs_streams.py:59-78 | so are the fields that the rewriting reads, of any blob |
| LzfseLiterals.DecodeEncode | ewfprobe.py:2134-2172 | whatever literals decode are what the encoder writes, bit for bit, for those literals and final states over the bits left |
| FseTable.RoundTripStep | ewfprobe.py:2016-2022 | for any state and any state it steps to, the encoder's step to there is back to that state and cell |
| OwnBits.DecodeAbove | ewfprobe.py:2124-2172 | literals that pull none but a stream's own bits are read, with their states, whatever at least 56 bits lie below, though flushes load those |
| OwnBits.LiteralsAbove | ewfprobe.py:2134-2172 | when all but the last four literals do so, all of them are decided by the stream's own bits |
| OwnBits.OwnIff | ewfprobe.py:2124-2172 | nothing less will do: literals and final states are the same whatever lies below if and only if no pull takes any of it, or every decoding raises, which cannot be in a table with no unowned state |
| OwnBits.EncodeOwn | ewfprobe.py:2124-2172 | literals written over any bits, or over none, pull only what was written for them |
| RewrittenStream.LiteralsAlone | ewfprobe.py:2124-2132 | when all but the last four literals pull only bits of the payload, the literals read with a floor of zero are those of the payload's bytes alone |
| RewrittenStream.BlockRewritten | tools/make_decmpfs_streams.py:52-85 | a block whose literals but the last four pull only bits of their payload decodes alike under both headers: both raise, or both give the same output and end at the same place of what follows |
| RewrittenStream.StreamRewritten | tools/make_decmpfs_streams.py:52-85 | a whole stream none of whose blocks pulls such literals from the first header decompresses alike once that header is rewritten |
| RewrittenStream.EncodedRewritten | tools/make_decmpfs_streams.py:52-85 | any sequence of encoded blocks that starts with a bvx2 one, its literals over spare bits or over none, decompresses to what the sequence means before and after the rewriting |
| RewriteDiffers.RewriteDiffers | tools/make_decmpfs_streams.py:52-85 | a stream with an empty literal payload decompresses under both headers, to different bytes |
| LzfseBlock.Payload | ewfprobe.py:2108-2240 | a block keeps earlier output, stays within the limit, and ends past its header inside the stream |
| LzfseBlock.DecodeBlock | ewfprobe.py:2082-2240 | the block decoder gives what the header, the literals and the matches mean, with every check |
| LzfseNumbers.CheckedIff | ewfprobe.py:2110-2113 | a header is accepted exactly up to 40000 literals, 10000 matches, literal states below 1024, L and M states below 64 and D states below 256 |
| LzfseNumbers.TablesFitIff | ewfprobe.py:2116-2122 | the 20, 20, 64 and 256 frequencies may sum to at most 64, 64, 256 and 1024 |
| LzfseEncode.BlockRoundTrip | ewfprobe.py:2082-2240 | any codable literals, over any bits or none, and any codable matches with enough bits for their flushes, written as a bvx1 or bvx2 block between any bytes, decode to what the matches mean on those literals |
| LzfseStream.LzfseDecompress | ewfprobe.py:2243-2287 | the loop over blocks is the recursive meaning of the stream |
| LzfseStream.Decompress | ewfprobe.py:2243-2287 | a decoded stream holds at most the limit and keeps what was there |
| CutStream.NeverShort | ewfprobe.py:2243-2287 | a stream cut anywhere raises or gives the result of the whole stream, never a shorter one |
| CutStream.CutIff | ewfprobe.py:2243-2287 | a cut stream decompresses if and only if the whole one does and its end marker is kept, and then to the same bytes |
| LzfseStream.StreamRoundTrip | ewfprobe.py:2243-2287 | any sequence of raw, LZVN and LZFSE blocks written out, with its end marker, decodes to what the sequence means, later blocks reaching back into earlier output |
| ExampleStream.Example | ewfprobe.py:2243-2287 | 830 bytes, given one by one, of a raw, an LZVN and a bvx1 block decompress to 80 given bytes |
| Crc32c.Table | ewfprobe.py:3850-3857 | each entry of the table is eight steps of the division |
| Crc32c.TableStep | ewfprobe.py:3868-3869 | one look-up divides one byte in |
| Crc32c.Crc32c | ewfprobe.py:3863-3870 | the table-driven sum is bit-at-a-time division by the reflected Castagnoli polynomial (section 12.1 of RFC 3720) |
| Crc32c.CrcNumbers | ewfprobe.py:3863-3870 | the sum starts from and ends with FFFFFFFF, and takes eight steps for each byte |
| Crc32c.PolyPowers | ewfprobe.py:3855 | a step halves, and adds the polynomial of RFC 3720, bit by bit, when a one goes out |
| Crc32c.DivideMessage | ewfprobe.py:3863-3870 | dividing a message in is dividing its little-endian integer |
| Crc32c.ShiftInjective | ewfprobe.py:3855 | a step of the division loses nothing of 32 bits |
| Crc32c.BurstDetected | ewfprobe.py:3863-3870 | messages that differ only inside four bytes have different sums |
| Crc32c.Crc32cZeroed | ewfprobe.py:3873-3875 | the zeroed form is the sum of the data with four bytes at its field zero |
| Crc32c.ZeroedDetects | ewfprobe.py:3873-3875 | the zeroed sum does not depend on its field, and changes with any change of up to four bytes beside it |
| VhdxEntry.DoubledIsRing | ewfprobe.py:6641-6643 | a byte of the doubled log is the ring's at that place modulo its length |
| VhdxEntry.DescriptorFits | ewfprobe.py:6660-6670 | a descriptor whose signature is inside the doubled log is inside it whole, so unpacking one cannot fail |
| VhdxEntry.EntryAt | ewfprobe.py:6645-6682 | a valid entry has a positive number and length within the ring, a tail in it, and only whole aligned sectors to write |
| VhdxEntry.ReadUpdates | ewfprobe.py:6659-6681 | the loop over descriptors gives the updates they say, or none when one is wrong |
| VhdxEntry.ReadEntry | ewfprobe.py:6645-6682 | reading an entry, with its tests in order, gives what the entry is |
| VhdxEntry.HeadFields | ewfprobe.py:6650-6651 | every field of an entry's fixed part is at its own bytes |
| VhdxEntry.EntryIff | ewfprobe.py:6645-6682 | an entry is valid exactly when its bytes pass each test, and then says what its bytes do |
| VhdxEntry.ZeroUpdateIs | ewfprobe.py:6662-6667 | when a zero descriptor counts, and the range its bytes say |
| VhdxEntry.DataUpdateIs | ewfprobe.py:6668-6679 | when a data descriptor and its sector count, and each byte they write: eight from the descriptor, the sector's own, and four from the descriptor |
| VhdxEntry.FilledHoldsNone | ewfprobe.py:6645-6682 | no entry starts in a sector that another one's descriptors or data fill |
| VhdxLog.ChainLinked | ewfprobe.py:6687-6696 | the entries collected have consecutive numbers and lie end to end round the ring |
| VhdxLog.AddressesDiffer | ewfprobe.py:6690-6694 | numbers rise, so no address comes twice |
| VhdxLog.Pigeonhole | ewfprobe.py:6695-6696 | different numbers below a bound are at most that many |
| VhdxLog.LinkedFits | ewfprobe.py:6695-6696 | a chain has at most as many entries as the ring has sectors |
| VhdxLog.GuardNeverFires | ewfprobe.py:6695-6696 | so the length guard never ends a sequence |
| VhdxLog.Suffix | ewfprobe.py:6687-6696 | what is collected from an entry of a sequence is the rest of that sequence |
| VhdxLog.ScanKeeps | ewfprobe.py:6697-6704 | what the search keeps is a whole sequence of the log that holds the entry its head names as tail, and its number only grows |
| VhdxLog.ValidIff | ewfprobe.py:6697-6698 | a sequence is valid exactly when the tail its head names is the address of one of its entries, whichever |
| VhdxLog.GivesWay | ewfprobe.py:6699-6700 | the kept sequence gives way exactly to a valid one of a greater head number |
| VhdxLog.SteppedOver | ewfprobe.py:6701-6704 | at an address the search steps over there is no entry, or its sequence has the same head, or it lies past what one of the entries fills |
| VhdxLog.ScanTakes | ewfprobe.py:6686-6704 | no valid sequence the search looks at has a greater head number than the one kept |
| VhdxLog.ScanFinds | ewfprobe.py:6686-6708 | the search keeps a sequence when there is a valid one anywhere in the log |
| VhdxLog.ScanComplete | ewfprobe.py:6686-6704 | nor has any valid sequence that starts outside the slack of the entries it looked at |
| VhdxLog.ActiveIs | ewfprobe.py:6684-6704 | the active sequence: linked, valid, no longer than the ring, one of those the search looked at, there exactly when the log holds a valid one; none that the search looked at, nor any outside their entries' slack, has a greater head number |
| VhdxLog.GreatestIff | ewfprobe.py:6684-6704 | it has the greatest head number of all valid sequences if and only if none that starts in the slack of an entry looked at outnumbers all those looked at |
| VhdxLog.SnugGreatest | ewfprobe.py:6684-6704 | so it has in every log whose entries state no more than they fill |
| VhdxWriter.ReadsBack | ewfprobe.py:6645-6682 | an entry written with any zero ranges and data sectors, any sequence number, tail, flushed and last offsets, whatever fills the rest of it, is read back as that |
| VhdxHidden.HiddenExample | ewfprobe.py:6684-6713 | a log in which entry 1 states all of it as its length and hides entry 2: the search keeps entry 1, and the replay of any file with this log at a whole mebibyte replays it |
| VhdxReplay.Collect | ewfprobe.py:6687-6696 | the inner loop gives the longest sequence from an address |
| VhdxReplay.FindActive | ewfprobe.py:6684-6704 | the search ends, with the active sequence |
| VhdxReplay.StartIndex | ewfprobe.py:6713 | the entry the head names as tail is found, at its first place |
| VhdxReplay.Replay | ewfprobe.py:6633-6723 | a replay raises exactly when it must, else lays down the updates of the entries from tail to head in order and extends the file as they say |
| VhdxReplay.ReplayedIff | ewfprobe.py:6705-6713 | a log is replayed exactly when it holds an active sequence and the file is no shorter than its head's flushed offset; the entries are those from the tail to the head |
| VhdxReplay.ExtentGreatest | ewfprobe.py:6714-6718 | the file reaches to the greatest last offset of the entries replayed, or to where it did |
| VhdxOverlay.LastCover | ewfprobe.py:6719-6722 | a byte is what the last update that covers it writes |
| VhdxOverlay.ReplayTwice | ewfprobe.py:6719-6722 | laying the same updates down again changes nothing |
| VhdxOverlay.VhdxFile.Lay | ewfprobe.py:6719-6722 | one more update laid sector by sector is one more update applied to the file |
| VhdxOverlay.VhdxFile.Read | ewfprobe.py:6616-6631 | reading through the overlay is reading the zero-extended file after every update in order, whatever overlaps |
| VhdxBat.RatioExact | ewfprobe.py:6825 | the ratio times the block size is 2^23 sectors, for every size the reader accepts |
| VhdxBat.IndicesApart | ewfprobe.py:6836-6843 | blocks' entries rise, bitmaps' entries rise, and no entry is both |
| VhdxBat.IndicesCover | ewfprobe.py:6827-6843 | every entry of whole rows is a block's or a bitmap's |
| VhdxBat.IndicesFit | ewfprobe.py:6826-6834 | the entries counted hold each block's entry, and its bitmap's when there is a parent; without one the last is the last block's |
| VhdxBat.SameRow | ewfprobe.py:6951-7004 | a byte's bitmap by its sector is its block's bitmap, so merging never leaves the row |
| DiskMaps.VhdMap.ChunkInBlock | ewfprobe.py:5873-5886 | a chunk of a VHD lies in one block, from a whole sector, and its bytes are that block's |
| DiskMaps.VhdxMap.BlockInTable | ewfprobe.py:6956-6957 | every byte's block, and its bitmap when there is a parent, has its entry in the table |
| DiskMaps.VhdxMap.ChunkInBlock | ewfprobe.py:6951-6967 | a chunk of a VHDX lies in one block, and all its sectors in that block's bitmap |
| DiskMaps.QcowMap.Inflated | ewfprobe.py:6132-6171 | a compressed cluster is the bytes its place decompresses to, then zeros, and an error exactly when they do not decompress or are more than a cluster |
| DiskMaps.BytePlaceRoundTrip | ewfprobe.py:6138-6140 | the place of a compressed cluster packed into an entry of version 1 is read back exactly |
| DiskMaps.SectorPlaceRoundTrip | ewfprobe.py:6141-6145 | and from a later one as the same offset and the bytes up to the end of its last sector, fewer than 512 too many |
| DiskMaps.TableRoundTrip | ewfprobe.py:6119-6126 | a second-level table written as big-endian fields is read back field by field |
| DiskMaps.NearestLayer | ewfprobe.py:5915-5922 | a byte of a chain of any depth is what the first layer that defines it says (or missing, if that layer's file lacks it), and zero when none does or past a layer's end |
| DiskNumbers.FixedByte | ewfprobe.py:5877-5879 | a fixed VHD's byte is the file's |
| DiskNumbers.VhdByte | ewfprobe.py:5880-5899 | a byte of a VHD block: the parent's for FFFFFFFF or where its sector's bit, 128 down to 1, is clear, else after the bitmap at 512 times the entry |
| DiskNumbers.VhdxByte | ewfprobe.py:6955-6983 | a byte of a VHDX block, by its entry's low three bits 6, 7, 0 or others, at the entry's megabytes, and for 7 by its sector's bit, 1 up to 128, in the row's bitmap |
| DiskNumbers.PlainEntry | ewfprobe.py:6198-6229 | what an entry of an offset and flags gives in versions 1, 2 and 3: the bytes there, zeros or the layer below |
| DiskNumbers.ExtendedEntry | ewfprobe.py:6209-6224 | what an extended entry gives for each thirty-second of a cluster, by bits k and 32 + k of its bitmap |
| DiskNumbers.CompressedEntry | ewfprobe.py:6141-6171 | what bit 62, a sector count and an offset give in versions 2 and 3: a byte of what those bytes decompress to, zeros after it, or an error |
| DiskNumbers.CompressedEntry1 | ewfprobe.py:6138-6171 | the same of bit 63, a byte count and an offset in version 1 |
| DiskNumbers.QcowByte | ewfprobe.py:6178-6192 | a cluster's entry is the big-endian field in the table its first-level entry names, or zero without one, or missing past the file's end |
| DiskLayers.ReadDisk | ewfprobe.py:7602-7630 | a read of a chain gives the disk's own byte at every position, none of them missing from its layer, and exactly as many as are there; it returns if and only if every chunk it touches, of each layer it comes to, can be read |
| DiskLayers.ParentRead | ewfprobe.py:5915-5922 | a read of a parent is its bytes, zeros past its end, and fails exactly when the parent cannot be read there |
| DiskLayers.IntactReads | ewfprobe.py:5873-5922 | nothing can fail when no layer is damaged |
| DiskLayers.VhdBlock | ewfprobe.py:5882-5889 | a chunk of a stored or unused VHD block is the disk's bytes there, and fails exactly when one of them cannot be had |
| DiskLayers.VhdRunEnd | ewfprobe.py:5895-5898 | a run is as long as the sector bits, highest first, stay the same |
| DiskLayers.VhdMerge | ewfprobe.py:5889-5902 | runs of sectors from the parent give the per-sector choice, and fail exactly when the parent cannot be read at one of them |
| DiskLayers.VhdxBlock | ewfprobe.py:6951-6967 | a chunk of a block in any state is the disk's bytes there, and fails exactly when one of them cannot be had |
| DiskLayers.VhdxBitmap | ewfprobe.py:6997-7008 | a row's bitmap is read, or refused, as its entry's state says |
| DiskLayers.VhdxRunEnd | ewfprobe.py:6984-6990 | a run is as long as the row and the sector bits, lowest first, stay the same |
| DiskLayers.VhdxMerge | ewfprobe.py:6969-6995 | runs of sectors from the parent give the per-sector choice, and fail exactly without the row's bitmap or when the parent cannot be read at one of them |
| DiskLayers.QcowTable | ewfprobe.py:6112-6130 | the bytes of a second-level table, read and unpacked, are the fields its map has at each index (`DiskMaps.TableRoundTrip` says what those are); none where there is no table, an error exactly where the file ends inside it |
| DiskLayers.QcowCompressed | ewfprobe.py:6132-6171 | reading where the entry's fields say and decompressing gives the cluster the map says, or its error |
| DiskLayers.QcowEntry | ewfprobe.py:6182-6190 | a cluster's entry and subcluster bitmap come from its table, zero without one |
| DiskLayers.QcowSubclusters | ewfprobe.py:6209-6224 | extended entries: each subcluster stored, zero or absent by its own two bits |
| DiskLayers.QcowPiece | ewfprobe.py:6195-6229 | a piece of a cluster is the disk's bytes there, in all three versions, and fails exactly when one of them cannot be had |
| DiskLayers.QcowChunk | ewfprobe.py:6173-6193 | a chunk's clusters, joined, are the disk's bytes, and fail exactly when one of them cannot be had |
| VhdxDisk.IndexBat | ewfprobe.py:6822-6851 | the block table is that of the file with its log applied, and opening raises exactly when the sizes do not fit, the table is too short, or a block's state or place fails its test |
| VhdxDisk.SizesAre | ewfprobe.py:6815-6824 | the accepted sizes: blocks of one megabyte doubled up to eight times, sectors of 512 or 4096 bytes, whole sectors |
| VhdxDisk.BlocksAre | ewfprobe.py:6826 | as many blocks as hold the disk |
| VhdxDisk.EntriesAre | ewfprobe.py:6825-6828 | as many entries as blocks and one more after each ratio of them, in whole rows with a parent |
| VhdxDisk.BlockOkIff | ewfprobe.py:6836-6851 | when a block's entry passes: not state 4 or 5, 7 only with a parent, stored bytes past the first megabyte and inside the file's reach |
| VhdxDisk.ReadVhdx | ewfprobe.py:6752-6757 | replayed, opened and read, a VHDX gives the disk that its file describes with its log applied, over its parent; opening succeeds exactly when the replay and the tests of the table do |
| PaddedSpans.NotedMembers | ewfprobe.py:7517-7521 | entering a span adds it and nothing else, and never twice |
| PaddedSpans.NotedOrdered | ewfprobe.py:7517-7521 | a span apart from the others keeps the list in order and free of overlaps |
| PaddedSpans.OverlapsCount | ewfprobe.py:7557-7566 | adding up overlaps counts each padded position once |
| PaddedSpans.EarlierMissed | ewfprobe.py:7561 | no span before the one bisection starts at reaches into the range |
| PaddedSpans.LaterMissed | ewfprobe.py:7562 | no span from where the loop ends reaches into it |
| ImageStream.CacheLimit | ewfprobe.py:7575-7576 | the limit lies between two chunks and 64; `Valid`, which every call keeps, holds the cache to it |
| ImageStream.CacheSizes | ewfprobe.py:7575-7576 | the limit for chunks of 512 bytes, 32 KiB, 64 KiB and 1 MiB: 64, 64, 32 and 2 |
| ImageStream.UnitsConsistent | ewfprobe.py:7509-7528 | disjoint units, whose zeros the chunks that read them tell of, give spans that are apart, and tell every chunk that decodes of all its padded positions |
| ImageStream.WantCovers | ewfprobe.py:7436-7446 | a position of the disk lies inside what its chunk covers, the last chunk included |
| ImageStream.WantIs | ewfprobe.py:7442-7446 | a chunk covers its size's bytes or those left of the disk |
| ImageStream.MovedToEnd | ewfprobe.py:7437-7440 | a hit changes only the order of the cache |
| ImageStream.PutAtEnd | ewfprobe.py:7575-7578 | a miss puts the disk's own chunk last, the oldest gone or not |
| ImageStream.EwfImage.NotePadded | ewfprobe.py:7517-7521 | the list gains the span, stays in order and holds only what units told |
| ImageStream.EwfImage.Keep | ewfprobe.py:7568-7579 | a chunk is fitted to what it covers and cached, the oldest dropped at the limit |
| ImageStream.EwfImage.Chunk | ewfprobe.py:7436-7506 | cached or decoded, a chunk is the disk's, fails exactly when decoding does, and its padding is in the list |
| ImageStream.EwfImage.CountPaddedZeros | ewfprobe.py:7557-7566 | the counter grows by the positions of the range that lie in listed spans |
| ImageStream.EwfImage.Seek | ewfprobe.py:7583-7597 | a seek does what it does without a cache, and nothing when it raises |
| ImageStream.EwfImage.Read | ewfprobe.py:7602-7630 | a read returns the slice of one fixed disk at the position, moves by what it returns, counts its padded zeros, and raises, changing neither, exactly when closed or a chunk it needs does not decode |
| ImageStream.CountAgrees | ewfprobe.py:7557-7566 | the list counts a range's padded positions once its chunks have been read |
| ImageStream.Drive | ewfprobe.py:7583-7630 | any list of seeks and reads made on the object answers, and leaves it, as the stream without cache or list does |
| ImageStream.History | ewfprobe.py:7583-7630 | so over any history of seeks and reads every byte returned is the disk's at its position, and the counter is the number of padded positions returned, repeats included |
| ImageStream.ByteIs | ewfprobe.py:7618-7623 | a byte of the disk is its chunk's at the remainder, or zero past what the chunk decoded to |
| ImageStream.SeekAnswers | ewfprobe.py:7583-7597 | a seek by 0, 1 or 2 goes to the offset, the position or the size plus the offset; it raises and moves nothing exactly when that is negative or whence is another number |
| ImageStream.ReadAnswers | ewfprobe.py:7602-7630 | a read of n bytes that are there returns those n, and of none, of a negative number or of more, all that are left |
| ImageStream.LastBytes | ewfprobe.py:7583-7630 | a seek of -k from the end and a full read return the last k bytes of the disk |
| Aff4Map.OpensIff | ewfprobe.py:3347-3355 | a map opens if and only if all its ranges are apart from each other and their targets listed; its ranges are then in line, none lost |
| Aff4Map.NeighboursEnough | ewfprobe.py:3348-3351 | comparing neighbours finds every overlap |
| Aff4Map.FurthestHolds | ewfprobe.py:3356-3357 | a size taken from the ranges holds them all |
| Aff4Map.Aff4Map.Read | ewfprobe.py:3364-3381 | every byte is its covering range's target's or the gap stream's, and there are exactly min(offset + n, size) - offset of them |
| Aff4Map.BytePlace | ewfprobe.py:3364-3381 | a position that a range holds is read, and named, from its target, as far past its offset there as past its start; every other one from the gap stream |
| Aff4Map.LengthsCount | ewfprobe.py:3383-3397 | ranges inside the map hold, name by name, the positions read from there, and with the gaps the whole map |
| Aff4Map.Coverage | ewfprobe.py:3383-3397 | each total, and their sum, for every map: what is left for the gaps replaces any total under their label |
| Aff4Map.RightIff | ewfprobe.py:3383-3397 | for ranges inside the map, the totals sum to its size and each is the number of positions read from there, if and only if no range has the gaps' label for its target's name while something is left for them |
| L01Tree.SplitJoin | ewfprobe.py:2433-2439 | fields without tabs, joined and split, are the same fields |
| L01Tree.ZippedAt | ewfprobe.py:2443 | each column with a value has the value at its last place |
| L01Tree.ZippedKeys | ewfprobe.py:2443 | and no other column is a key |
| L01Tree.PopKeeps | ewfprobe.py:2449-2452 | dropping a finished entry leaves what is to be read unchanged |
| L01Tree.PushKeeps | ewfprobe.py:2453-2457 | reading one child onto the stack leaves what the whole comes to unchanged |
| L01Tree.AddChild | ewfprobe.py:2455-2457 | the child goes last under its parent, knows it, and only the parent changes |
| L01Tree.ReadBelow | ewfprobe.py:2447-2458 | the loop over the stack builds the objects of the tree that recursive descent reads, and fails exactly when it does |
| L01Tree.Parse | ewfprobe.py:2427-2458 | for all lines: the tree of entries, their children in order and their parents, and the next line are those of recursive descent |
| L01Tree.RoundTrip | ewfprobe.py:2427-2458 | any tree printed, wherever its lines are and whatever follows, parses to itself and stops at the first line after it |
| L01Tree.ChildNamed | ewfprobe.py:2455 | in a printed tree a child's path ends in its cell in column "n", or in an empty name when no column it has a cell for is "n" |
| L01Tree.LinesExample | ewfprobe.py:2427-2458 | four lines, given, parse to a given tree of two entries |
| L01Tree.NegativeCount | ewfprobe.py:2448-2457 | a negative child count only ends at an error |
| Intervals.Zero | tools/luks_zero_unused.py:30-36 | exactly the bytes from start to end outside every kept range are zeroed, in place, and past its own end the buffer gains a zero for each such position; it raises if and only if the ranges leave a gap past the end |
| Intervals.KeptInside | tools/luks_zero_unused.py:39-69 | ranges that end inside the region never make it raise |
| Intervals.GapExample | tools/luks_zero_unused.py:30-36 | two ranges past the end, apart from each other, do make it raise |
| Intervals.ClearExample | tools/luks_zero_unused.py:30-36 | eight bytes, a region and a kept range give eight given bytes |
| Intervals.ClusterRuns | tools/make_refs_fixture.py:108-118 | the runs are in order with a gap between them, and hold just what the rounded reads hold |
| Intervals.RoundedTouches | tools/make_refs_fixture.py:109-111 | a rounded read holds the positions, inside the size, of the clusters the read touches |
| Intervals.RoundExample | tools/make_refs_fixture.py:109-111 | four reads, one before the start and one past the size, give two given ranges |

## Left out

- ImageStream.EwfImage.Chunk: the list of entries by unit (`padded_chunks`), the checksum of a stored chunk and each format's own decoding are an abstract function from chunk numbers to bytes and padded spans.
- ImageStream.EwfImage.Read: the count of a parent disk, added by `padded_zeros_read`, is that disk's own stream.
- DiskLayers.ReadDisk: reads of a layer are modelled without its chunk cache, which `ImageStream` proves transparent; so are the small caches of bitmaps, tables and clusters.
- DiskLayers.VhdBlock, DiskLayers.VhdxBlock, DiskLayers.QcowEntry, LzfseLiterals.Group, L01Tree.Turn, ImageStream.EwfImage.ReadChunks, FseTable.AppendStates, Lzvn.Dispatch and others: one source method is several here, its loops and branches each with a contract.
- RewrittenStream.StreamRewritten: goes one way; a literal stream that pulls bits from below its payload takes states from there (`OwnBits.OwnIff`), but those that two given headers lead to may stand for the same symbols.
- Intervals.Zero: how long the buffer becomes is not said when a kept range ends before it starts and the region passes the buffer's end.
- DiskMaps.QcowMap.Inflated: deflate and zstd are an abstract function of the bytes read.
- VhdxDisk.IndexBat, VhdxDisk.ReadVhdx: what the header, region and metadata tables say is a parameter (`Geometry`), and so is the opened parent; a disk of no bytes is not opened, whose table would count below zero.
- L01Tree.Parse: how Python's `int` reads a count, and which values make an entry, are parameters; the fields an entry derives from its values are not kept.
- L01Tree.RoundTrip: counts are printed in any way that reads back, without tabs.
- Aff4Map.Aff4Map.Read: targets are functions that have every byte asked of them.
- PaddedSpans.BisectLeft, PaddedSpans.BisectRight, Sorting.Sorted: the library's bisection and sorting are modelled by what they give on an ordered list, and by an insertion sort.
- Error wording and kinds: every exception is one value, `Raised`.
- E01, Ex01, AFF, AD1, UDIF, sparse images, VMDK and split raw images: slices of concatenations, like the stream and the AFF4 map.
- LZ4, Snappy and ADC: simpler than LZVN; their copies are `LzCopy`'s.
- zlib, bzip2, LZMA, zstd, ciphers, digests, keys and passwords.
- Finding and opening files and parents, descriptor and metadata text, timestamps, the command line and the user interface.
- `qnxprobe.py` and its file system walkers are not part of this model.
