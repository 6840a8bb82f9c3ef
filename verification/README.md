# Verified models of the demonstration programs

The emulator repository carries self-contained C programs under `programs/`. This project models nine of them
in Dafny and proves what they are for: codes that are optimal and decodable, decoders that invert every encoding,
limb arithmetic that never overflows and computes the right residue, a file system whose tables stay sound over
every run, and a Forth compiler that keeps the meaning of what it compiles.

| program | modules | main results |
|---|---|---|
| `huffman.c` | `HuffmanCost`, `HuffmanTree`, `HuffmanHeap`, `HuffmanForest`, `HuffmanBuild`, `HuffmanCodec`, `HuffmanRoundTrip` | optimal among all prefix-free codes; depth at most 32; round trip passes exactly for 1 to 512 bytes |
| `deflate.c` | `Lz`, `InflateReader`, `InflateTable`, `InflateCodes`, `InflateStored`, `InflateHeader`, `InflateStream` | inverts every encoding, and accepts nothing that is not one; ends on every input; its tables and codes are those of RFC 1951 |
| `gzip.c` | `MachineBytes`, `Crc32`, `CrcWords`, `GzipHeader`, `Gzip` | the checksum has the residue of the CRC-32 of RFC 1952 for every message; round trip over any number of blocks; one changed data byte is always noticed; accepts exactly well-formed members |
| `lz77.c` | `Lz`, `Lzss` | round trip; greedy longest matches; size bound |
| `chacha20-poly1305.c` | `PolyField`, `Poly1305`, `PolyExample`, `PolyStream`, `Aead` | the tag of section 2.5 of RFC 8439 under every split; what was sealed opens |
| `ed25519.c` | `FieldLimbs`, `FieldOps`, `FieldPower`, `FieldBytes`, `EdwardsCurve`, `EdwardsLadder`, `EdwardsOps`, `EdwardsBytes` | field operations within their limbs through the whole ladder; every point on the curve; the multiple is that of the scalar; canonical bytes |
| `fat12.c` | `FatTable`, `FatDir`, `FatData`, `Fat12`, `FatLayout` | chains acyclic, disjoint and counted after every run; what was written is read back, everything else unchanged |
| `forth-bare.c` | `ForthModel`, `ForthArithmetic`, `ForthMeaning`, `Forth` | every arithmetic word obeys its law; a compiled word does to the stack what its body meant, also after later redefinitions |
| `blake2s.c` | `Blake2s`, `Blake2sLaws` | streaming equals one-shot; the digest is exactly the calls of section 3.3 of RFC 7693 |

`Bits`, `BitOps`, `Congruence` and `LittleEndian` hold what several of them share. `dafny verify dfyconfig.toml`
checks the whole project.

## How the C code is modelled

- A struct or a set of globals that functions update in place is a class with those fields (`HeapPool`, `Inf`,
  `Huffman`, `Checksum`, the two `Context` classes, `Coords`, `Volume`, `Handle`, `Machine`); buffers are arrays;
  loops are loops. Each method is proved against a function or predicate on values, and the results above are
  lemmas about those, or methods that run several operations.
- `int32`, `int64`, `uint32` and `uint64` are subset types: every assignment to one is a proof that nothing
  overflows, and long sums are assigned term by term. Where C wraps around (counters, Forth cells, the counts of the Huffman builder), the remainder is
  written out. Shifts, masks and disjoint ORs are divisions, remainders and sums; `BitOps` and `Crc32` define OR
  and XOR bit by bit on numbers and prove what the code needs of them.
- Bit streams are sequences of bits, least significant bit of each byte first.
- Ghost parameters and fields only carry the abstract value (the trees behind a pool, the code lengths behind a
  table, the message behind a hash context, chains and contents behind a volume).
- Outcomes that C leaves undefined, or that the model does not determine, are a case of their own in the
  specification function, so no method promises anything about them (see below).

## Where the code differs from its documentation

- `programs/gzip.h:32` calls src_len + 18 + ceil(src_len/65535) * 5 bytes sufficient; the code needs 23 bytes for
  empty input. `Gzip.GzipCompress` and `Gzip.GzipSize` follow the code.
- `programs/fat12.c:353-388`: a write that starts where the contents end on a cluster boundary overwrites the last
  cluster instead of appending. `Fat12.Volume.Write` says exactly when the contents grow by what is written,
  `Fat12.Volume.WriteTwice` shows the loss.
- `programs/fat12.c:170-190` and `274-308`: a file whose name begins with byte 0xE5 is created but never found.
  `FatDir.CreatedIsFound` states this as an equivalence.
- `programs/forth-bare.c:399-404`: a number outside -2^30 .. 2^30 - 1 changes when it is compiled.
  `ForthModel.UntagTag` states the exact range.
- `programs/ed25519.c:489-528` accepts x = 0 with a set sign bit and y of 2^255 - 19 or more, which section 5.1.3
  of RFC 8032 refuses. `EdwardsBytes.Decode` follows the code.
- `programs/huffman.c:142-152`: codes longer than 32 bits do not fit. `HuffmanTree.DepthBound` gives the total
  up to which they cannot arise.

## Model

| member | source | states |
|---|---|---|
| `HuffmanHeap.HeapPool.HeapPush` | programs/huffman.c:80-89 | Keeps the array a heap by frequency and adds exactly the pushed pool index to its multiset of entries. |
| `HuffmanHeap.HeapPool.HeapPop` | programs/huffman.c:91-104 | Returns an index of least frequency among all entries, removes exactly it, and leaves a heap; the pool is untouched. |
| `HuffmanHeap.RootIsMin` | programs/huffman.c:83-88 | In an array ordered parent below child no entry is lighter than the root. |
| `HuffmanForest.JoinLightest` | programs/huffman.c:128-137 | Joining the two lightest trees of a forest is one step of greedy merging of its weights, wherever ties fall. |
| `HuffmanForest.JoinKeepsBalance` | programs/huffman.c:128-137 | Joining the two lightest trees keeps the sibling bound on weights that limits the depth of leaves. |
| `HuffmanBuild.MergeAll` | programs/huffman.c:128-138 | The merge loop: the forest of leaves becomes one tree over exactly the used symbols, for a total below 2^32 with inner weights that add up to the greedy cost. |
| `HuffmanBuild.BuildTree` | programs/huffman.c:115-139 | -1 exactly when no symbol is used; otherwise the root of a tree in which each used symbol is one leaf with its count and no other is; for a total below 2^32 its inner weights add up to the greedy cost and it is balanced. |
| `HuffmanCost.KraftLowerBound` | programs/huffman.c:115-139 | No assignment of code lengths within the inequality of Kraft costs less than greedy merging. |
| `HuffmanCost.PrefixFreeKraft` | programs/huffman.c:115-152 | The word lengths of every prefix-free code satisfy the inequality of Kraft. |
| `HuffmanTree.PrefixCodeLowerBound` | programs/huffman.c:115-139 | Every prefix-free code for the used symbols needs at least the greedy cost in bits. |
| `HuffmanTree.TreeCodeBits` | programs/huffman.c:115-152 | Counts times leaf depths of a code tree add up to the sum of its inner weights. |
| `HuffmanTree.DepthForcesWeight` | programs/huffman.c:91-104 | A balanced tree of height h weighs at least Fib(h + 2). |
| `HuffmanTree.DepthBound` | programs/huffman.c:142-152 | A total of at most 9227464 keeps every leaf within depth 32, so the shift by the depth stays inside 32 bits. |
| `HuffmanCodec.AssignCodes` | programs/huffman.c:142-152 | Every leaf gets the path from the root, first branch in bit 0, and its depth (one bit for a lone leaf); codes of other symbols stay as they were. |
| `HuffmanCodec.EncodeSymbol` | programs/huffman.c:159-170 | Writes one code behind the bits already there, or reports a full buffer exactly when it does not fit 4096 bits. |
| `HuffmanCodec.Encode` | programs/huffman.c:155-172 | -1 exactly for an unused symbol or an overflow of the bit buffer; otherwise the buffer begins with the concatenated codes and the result is their length. |
| `HuffmanCodec.WalkWords` | programs/huffman.c:176-207 | Walking a tree over the code words of any message gives the message, and goes on from the root with what follows. |
| `HuffmanCodec.DecodeSingle` | programs/huffman.c:184-190 | With one leaf, each bit, whatever it is, gives the symbol, up to the room in the output. |
| `HuffmanCodec.DecodeTree` | programs/huffman.c:192-206 | Bit-by-bit decoding with its delayed emission and final flush equals walking the tree over all bits, or -1 when the output has no room. |
| `HuffmanCodec.Decode` | programs/huffman.c:176-207 | Both forms of decoding, for a root with and without children. |
| `HuffmanRoundTrip.Optimal` | programs/huffman.c:80-152 | For every frequency table with at least two used symbols and a total below 2^32 and every prefix-free code, the assigned lengths need no more bits. |
| `HuffmanRoundTrip.AtMostEightBits` | programs/huffman.c:80-152 | An optimal code needs at most eight bits a symbol on average. |
| `HuffmanRoundTrip.EncodedLength` | programs/huffman.c:155-172 | The encoding of a message has as many bits as its symbol counts times the code lengths say. |
| `HuffmanRoundTrip.BitsAreFewest` | programs/huffman.c:115-172 | The encoding of a message has the fewest bits of any prefix-free code of its symbols (one a symbol when there is only one). |
| `HuffmanRoundTrip.MakeCodes` | programs/huffman.c:142-152 | Codes of at most 32 bits for every code tree of at most 32 levels: paths for its symbols, no code for the others. |
| `HuffmanRoundTrip.DecodeMessage` | programs/huffman.c:176-207 | Decoding the encoding of a message gives its length and bytes exactly when it fits 512 bytes. |
| `HuffmanRoundTrip.RoundTrip` | programs/huffman.c:214-253 | Passes exactly for messages of 1 to 512 bytes, and then the bits written are the fewest possible; no encoding of so few bytes overflows 4096 bits. |
| `InflateReader.ReadOn` | programs/deflate.c:120-126 | Reading a bits and then b bits is reading a + b bits, in value of the position and of the error. |
| `InflateReader.Inf.constructor` | programs/deflate.c:302-310 | The bits to read are those of the input, least significant first; nothing is written. |
| `InflateReader.Inf.ReadBit` | programs/deflate.c:106-117 | The buffered reader gives the next bit of the stream and drops it; at the end it gives 0 and sets the error. |
| `InflateReader.Inf.Bits` | programs/deflate.c:120-126 | The next n bits as a number, least significant first, dropped from the stream. |
| `InflateReader.Inf.ReadByte` | programs/deflate.c:129-135 | Gives up the rest of the current byte and reads the next whole one. |
| `InflateReader.Inf.Emit` | programs/deflate.c:138-142 | Appends one byte, or sets the overflow error and writes nothing; bytes already written stay. |
| `InflateTable.CodesAndFree` | programs/deflate.c:68-73 | Codes used up to a length and codes left over always make 2^length. |
| `InflateTable.CheckSubscription` | programs/deflate.c:68-73 | The codes left over for accepted lengths, -5 exactly when some length has more codes than there are. |
| `InflateTable.SlotsDiffer` | programs/deflate.c:75-85 | Different symbols have different places in the symbol array. |
| `InflateTable.Construct` | programs/deflate.c:57-88 | The count array and the symbol array sorted by length, for any lengths up to 318 entries; 0 exactly for a complete code, positive for an incomplete one, -5 for an oversubscribed one. |
| `InflateTable.DecodesCodeWord` | programs/deflate.c:150-165 | Bits that begin with the code word section 3.2.2 of RFC 1951 gives symbol s decode to s after exactly its length, whatever follows. |
| `InflateTable.DecodedCodeWord` | programs/deflate.c:150-165 | Conversely a decoded symbol has the bits just read as its code word. |
| `InflateTable.CodesPrefixFree` | programs/deflate.c:57-88 | No code word of an accepted table is a prefix of another. |
| `InflateTable.CodeWordIsSum` | programs/deflate.c:57-88 | Read as a binary fraction, the code word of a symbol is the sum of 2^-length over all symbols that come before it, shorter codes first and symbols of one length in their order. This determines every code word. |
| `InflateTable.Decode` | programs/deflate.c:150-165 | The count-by-length search takes exactly the bits of the canonical code and gives its symbol, or the bad-code error after 15 bits; without error it consumes a bit. The array index is in range for every table, accepted or not. |
| `InflateCodes.LengthHasSymbol` | programs/deflate.c:171-177 | Every match length 3..258 has a length symbol and extra bits. |
| `InflateCodes.LengthTable` | programs/deflate.c:171-177 | Length symbols begin at 3, each stands for as many lengths as its extra bits allow before the next one, the last one for 258 alone; extra bits are 0 for the first eight and then (li - 4) / 4. This determines both tables. |
| `InflateCodes.DistanceHasSymbol` | programs/deflate.c:178-185 | Every distance 1..32768 has a distance symbol and extra bits. |
| `InflateCodes.DistanceTable` | programs/deflate.c:178-185 | The same for distances: they begin at 1, each base is the one before plus 2^extra, and the extra bits are di / 2 - 1 from the fifth symbol on. |
| `InflateCodes.CopyMatch` | programs/deflate.c:210-212 | The byte-by-byte copy equals the overlapping LZ copy, or ends with the overflow error. |
| `Lz.CopyBackIs` | programs/deflate.c:211-212 | A copy keeps what was there, and every byte copied equals the one dist before it, also where the copy overlaps its source. |
| `InflateCodes.DecodeMatch` | programs/deflate.c:203-210 | Length, distance and error of a match as its symbols and extra bits say, through the tables that LengthTable and DistanceTable determine. |
| `InflateCodes.InflateStep` | programs/deflate.c:191-215 | One turn of the loop; a turn without error consumes a bit, which is why the loop ends on any input and any table. |
| `InflateCodes.InflateBlock` | programs/deflate.c:191-215 | The loop equals decoding to the end code; output already written stays; an earlier error is kept. |
| `InflateCodes.CodesInvertEncoding` | programs/deflate.c:191-215 | For any two accepted tables and any token list, written in canonical codes with extra bits and ended by 256, decoding appends exactly its LZ expansion and stops at the bit after the end code. |
| `InflateCodes.DecodedIsEncoding` | programs/deflate.c:191-215 | Conversely, whenever decoding ends without error the bits read encode some token list and the output is its expansion. |
| `InflateStored.ReadsStored` | programs/deflate.c:217-225 | A stored block appends its data from any bit position. |
| `InflateStored.StoredWasRead` | programs/deflate.c:217-225 | A stored block that was read had padding, length, complement and data of this form. |
| `InflateStored.InflateStored` | programs/deflate.c:217-225 | Copies a stored block: the data appended, or the error for a wrong complement, missing input or no room. |
| `InflateHeader.ReadsHeader` | programs/deflate.c:246-292 | Reading the bits of a dynamic header with its run-length coded lengths gives its two tables. |
| `InflateHeader.HeaderWasRead` | programs/deflate.c:246-292 | Conversely, whatever header was accepted is the encoding of some list of length items. |
| `InflateHeader.OrderIs` | programs/deflate.c:252-260 | The lengths of the code-length code come in the order 16, 17, 18, 0 and then from 8 outwards: 7, 9, 6, 10 and so on. |
| `InflateHeader.RunIs` | programs/deflate.c:271-284 | A run item adds 3 to 6 copies of the last length, 3 to 10 zeros or 11 to 138 zeros. |
| `InflateHeader.RunHasItem` | programs/deflate.c:271-284 | Every run of 3 to 138 zeros and every repetition of 3 to 6 has an item. |
| `InflateHeader.ReadCodeLengths` | programs/deflate.c:252-260 | The three-bit lengths put in the order of section 3.2.7 of RFC 1951, the others zero. |
| `InflateHeader.ReadAllLengths` | programs/deflate.c:265-286 | The repeat codes 16, 17 and 18 fill the lengths; runs stop at the total; a repeat with nothing before it is an error. |
| `InflateStream.FixedAccepted` | programs/deflate.c:227-244 | The fixed literal/length code is complete and the fixed distance code not oversubscribed. |
| `InflateStream.FixedCodes` | programs/deflate.c:227-241 | The code words of the fixed literal/length code are those of the table in section 3.2.6 of RFC 1951: 00110000 and up, 110010000 and up, 0000000 and up, 11000000 and up. |
| `InflateStream.FixedDistanceCodes` | programs/deflate.c:240-241 | A fixed distance code word is the symbol in five bits. |
| `InflateStream.FixedTables` | programs/deflate.c:229-241 | The arrays built for a fixed block are the tables of section 3.2.6 of RFC 1951. |
| `InflateStream.DynamicTables` | programs/deflate.c:246-291 | The tables of a dynamic header, or its error. |
| `InflateStream.InflateOne` | programs/deflate.c:319-324 | One block of any kind; kind 3 is an error. |
| `InflateStream.InflateInvertsEncoding` | programs/deflate.c:298-329 | The decoder inverts every encoding of every stream of stored, fixed and dynamic blocks that fits the output. |
| `InflateStream.Example` | programs/deflate.c:190-329 | The bytes 4b 04 02 00 decompress to four times the letter a, with two bits left over. |
| `InflateStream.InflatedIsStream` | programs/deflate.c:298-329 | Conversely, if decompression succeeds the bits read are the encoding of some stream and the output is its expansion. |
| `InflateStream.StreamIsLong` | programs/deflate.c:298-329 | A stream that is decompressed has at least ten bits, so the least size gzip_decompress asks for refuses none. |
| `InflateStream.DeflateDecompress` | programs/deflate.c:298-329 | Ends on every input with either the whole specified output and its length, or the specified non-zero error; the output never passes its capacity. |
| `Crc32.TableStep` | programs/gzip.c:67 | One look-up does the eight bit-serial steps of a byte. |
| `MachineBytes.XorIsMachine` | programs/gzip.c:54 | Exclusive or, which this model defines on numbers bit by bit, is that of machine bytes. |
| `CrcWords.FedIs` | programs/gzip.c:51-67 | A register of four machine bytes, shifted and combined with the machine operators, stays equal to the register of the model after every byte. |
| `Crc32.StepOneToOne` | programs/gzip.c:54 | The bit-serial step is one-to-one. |
| `Crc32.Checksum.BuildTable` | programs/gzip.c:48-58 | Entry i is the register after eight steps from i. |
| `Crc32.Checksum.Compute` | programs/gzip.c:61-69 | The table-driven checksum equals the bit-serial one on every message; the table is built on first use only. Which checksum that is, CrcWords.Residue and CrcWords.CheckValue say. |
| `Crc32.CrcOfChecked` | programs/gzip.c:61-69 | Behind any message its own checksum, least significant byte first, brings the register to one state, the same for all messages. |
| `CrcWords.Residue` | programs/gzip.c:48-69 | For every message m, the checksum of m followed by its own checksum is 0x2144DF1C, the residue of the CRC-32 of RFC 1952; this fixes polynomial, first state and final inversion. |
| `CrcWords.CheckValue` | programs/gzip.c:48-69 | The checksum of the digits 1 to 9 is 0xCBF43926. |
| `Crc32.ChangedByteDetected` | programs/gzip.c:61-69 | Changing any one byte of any message changes its checksum. |
| `Gzip.GzipSize` | programs/gzip.c:123-197 | The file has n + 18 + 5 max(1, ceil(n/65535)) bytes. |
| `Gzip.Example` | programs/gzip.c:123-197 | The file of the digits 1 to 9, byte for byte. |
| `Gzip.PutBlock` | programs/gzip.c:177-182 | One stored block with final flag, length and complement behind what was written. |
| `Gzip.PutBlocks` | programs/gzip.c:161-187 | All blocks in order, the last one marked; reports a lack of room only when the blocks do pass the capacity. |
| `Gzip.GzipCompress` | programs/gzip.c:123-197 | The size of the file exactly when it fits the capacity, else 0; and then the file as sections 2.3 of RFC 1952 and 3.2.4 of RFC 1951 lay it out. |
| `GzipHeader.ParseHeader` | programs/gzip.c:220-272 | The branches over the flags compute where the deflate data begins, or -1. |
| `GzipHeader.HeaderEndIs` | programs/gzip.c:220-272 | A header built from any extra field, name, comment and header checksum, under flags that say so, ends where its bytes end. |
| `GzipHeader.HeaderWasParsed` | programs/gzip.c:220-272 | Conversely, every header that is accepted is built of such fields. |
| `GzipHeader.FlagsAre` | programs/gzip.c:234-265 | A present header checksum counts 2 in the flags, extra data 4, a name 8 and a comment 16. |
| `Gzip.GzipDecompress` | programs/gzip.c:207-292 | The restored bytes exactly when header, deflate data, checksum and length are right; 0 otherwise. |
| `Gzip.InflatesBack` | programs/gzip.c:149-187 | Inflating the stored blocks of any source, one or many, gives the source and leaves no bit. |
| `Gzip.TrailerDecides` | programs/gzip.c:280-291 | With the trailer of one source, other data are accepted exactly when checksum and length agree. |
| `Gzip.GzipRoundTrip` | programs/gzip.c:123-292 | Decompressing what was compressed restores it, for every source and sufficient capacity. |
| `Gzip.AnyHeaderAccepted` | programs/gzip.c:207-292 | Under any such header and before the right trailer, any deflate stream is restored. |
| `Gzip.RestoredWasMember` | programs/gzip.c:207-292 | Conversely, whatever is restored stood under such a header, as a deflate stream with its checksum and length. |
| `Gzip.ChangedByteRejected` | programs/gzip.c:181-284 | Changing any one stored data byte of a compressed file makes decompression fail. |
| `Lzss.FindMatch` | programs/lz77.c:91-109 | The longest match within the 4096-byte window, at most 18 bytes, the farthest if several. |
| `Lzss.PutToken` | programs/lz77.c:111-126 | The bytes of a literal or reference, or a refusal exactly when they pass the capacity. |
| `Lzss.PutGroup` | programs/lz77.c:84-129 | Up to eight greedy tokens and, written last, the flag byte that goes before them. |
| `Lzss.Compress` | programs/lz77.c:78-131 | The packed greedy tokens of the input when they fit, else -1. |
| `Lzss.GreedyUnique` | programs/lz77.c:91-126 | The greedy token list is determined by the input. |
| `Lzss.GreedyExpands` | programs/lz77.c:84-130 | Greedy tokens, self-overlapping references included, expand to the input. |
| `Lzss.SizeBound` | programs/lz77.c:78-131 | The output is at most n + ceil(n/8) bytes, so that capacity never gives -1. |
| `Lzss.RefFields` | programs/lz77.c:112-118 | Offset 1..4096 and length 3..18 come back from the two bytes of a reference. |
| `Lzss.RefCode` | programs/lz77.c:112-118 | The two bytes of a reference are the number 16 (offset - 1) + length - 3, high byte first, and every pair of bytes is the reference it decodes to. |
| `Lzss.Example` | programs/lz77.c:136-171 | A flag byte 0x80, the letter a and two zero bytes unpack to four times the letter a. |
| `Lzss.UnpackInvertsPack` | programs/lz77.c:137-171 | Unpacking the packed form of any token list, partly used last flag byte included, gives its expansion. |
| `Lzss.CopyRun` | programs/lz77.c:162-166 | The forward byte copy equals the overlapping LZ copy. |
| `Lzss.Decompress` | programs/lz77.c:137-171 | What unpacking gives on any bytes: its length and bytes, or -1 for a cut reference, one before the start, or no room. |
| `Lzss.GreedyUnpacks` | programs/lz77.c:78-171 | Unpacking the packed greedy tokens of any input gives the input. |
| `Lzss.RoundTrip` | programs/lz77.c:78-171 | Whenever compression succeeds and the output has room for the input, decompression returns the same bytes and length. |
| `PolyField.ProductValue` | programs/chacha20-poly1305.c:183-192 | The five columns with the factors of 5 stand for the product modulo 2^130 - 5. |
| `PolyField.ProductBound` | programs/chacha20-poly1305.c:183-192 | From a partly carried accumulator plus a block, no column reaches 2^58. |
| `PolyField.CarriedValue` | programs/chacha20-poly1305.c:194-203 | The carry chain of a block keeps the value modulo 2^130 - 5. |
| `PolyField.CarriedLoose` | programs/chacha20-poly1305.c:194-203 | After it limbs are below 2^26 but for limb 1, below 2^26 + 2^10: the invariant between blocks. |
| `PolyField.SettledTight` | programs/chacha20-poly1305.c:237-244 | The first carries of the end leave every limb below 2^26. |
| `PolyField.SettledValue` | programs/chacha20-poly1305.c:237-244 | And keep the value modulo 2^130 - 5. |
| `PolyField.FrozenValue` | programs/chacha20-poly1305.c:246-260 | The choice between h and h + 5 is the residue modulo 2^130 - 5, up to a bit above the 128 that are used. |
| `PolyField.WordsValue` | programs/chacha20-poly1305.c:262-271 | Because limbs are disjoint, the OR-assembly into four words is their value. |
| `PolyField.CutValue` | programs/chacha20-poly1305.c:175-181 | The limbs cut from four words and the high bit have their value and are below 2^26. |
| `Poly1305.ClampWords` | programs/chacha20-poly1305.c:141-145 | Masking the words is the clamping of bytes of section 2.5 of RFC 8439. |
| `Poly1305.CutWords` | programs/chacha20-poly1305.c:175-180 | Shifts and masks cut the words into the five limbs. |
| `Poly1305.AssembleWords` | programs/chacha20-poly1305.c:262-271 | Shifts and ORs make the four words. |
| `Poly1305.AccumulateMore` | programs/chacha20-poly1305.c:206-227 | A block behind whole blocks is one more Horner step. |
| `PolyStream.Multiply` | programs/chacha20-poly1305.c:186-192 | The sums in the order of the code, none of them leaving 64 bits. |
| `PolyStream.Carry` | programs/chacha20-poly1305.c:194-203 | The carry statements make the carried limbs, within 64 bits. |
| `PolyStream.Finish` | programs/chacha20-poly1305.c:246-282 | Freezes, assembles and adds the pad modulo 2^128. |
| `PolyStream.Context.constructor` | programs/chacha20-poly1305.c:140-167 | Fresh context for a key: clamped limbs, no message. |
| `PolyStream.Context.Block` | programs/chacha20-poly1305.c:170-204 | Adds a block with its high bit, multiplies by r modulo 2^130 - 5, and keeps the limb invariant. |
| `PolyStream.Context.Update` | programs/chacha20-poly1305.c:206-227 | The message of the context grows by the data, whatever was buffered. |
| `PolyStream.Context.Final` | programs/chacha20-poly1305.c:229-283 | The tag of section 2.5 of RFC 8439 of all that was fed. |
| `PolyStream.TagOfParts` | programs/chacha20-poly1305.c:140-283 | For every key and every split of every message into updates, the tag is that of the whole message. |
| `PolyExample.Example` | programs/chacha20-poly1305.c:371-395 | The tag of the example in section 2.5.2 of RFC 8439, which the self-test of the program uses as well. |
| `Aead.ChachaXor` | programs/chacha20-poly1305.c:116-127 | XOR with the key stream of the block function, the 32-bit counter wrapping; nothing behind the text is written. |
| `Aead.CipherTwice` | programs/chacha20-poly1305.c:116-127 | Enciphering twice gives the text back. |
| `Aead.MacInputTo` | programs/chacha20-poly1305.c:287-303 | Feeds additional data and ciphertext, each padded, and the two lengths. |
| `Aead.MacInputOneToOne` | programs/chacha20-poly1305.c:287-303 | Different pairs of additional data and ciphertext never make the same authenticated string. |
| `Aead.MacInputLayout` | programs/chacha20-poly1305.c:287-303 | The additional data and the ciphertext each stand on a multiple of 16 bytes, filled with fewer than 16 zeros; then the length of the additional data and that of the ciphertext, in this order, as 64-bit little-endian numbers. |
| `Aead.Seal` | programs/chacha20-poly1305.c:306-318 | Ciphertext from block 1 on and the tag under the key of block 0. |
| `Aead.TextAvoidsFirstBlock` | programs/chacha20-poly1305.c:306-325 | Block functions that agree but for counter 0 give the same ciphertext, as long as the counter does not wrap. |
| `Aead.TagUsesFirstBlock` | programs/chacha20-poly1305.c:306-325 | The tag depends on the block function through the first 32 bytes of block 0 only. |
| `Aead.Open` | programs/chacha20-poly1305.c:321-340 | Deciphers exactly when the tag is the right one; otherwise the output is untouched. |
| `Aead.SealThenOpen` | programs/chacha20-poly1305.c:306-340 | What was sealed opens to the same text. |
| `FieldLimbs.ProductValue` | programs/ed25519.c:83-124 | The ten columns with factors 2, 19 and 38 stand for the product modulo 2^255 - 19. |
| `FieldLimbs.ProductBound` | programs/ed25519.c:83-124 | For factors with limbs within four carried ones, no column passes 2^62. |
| `FieldLimbs.CarriedValue` | programs/ed25519.c:126-137 | The carry chain keeps the value modulo 2^255 - 19. |
| `FieldLimbs.LastCarriesBound` | programs/ed25519.c:134-137 | And leaves limbs within 1.01 * 2^25 and 1.01 * 2^24. |
| `FieldOps.MulColumns` | programs/ed25519.c:83-124 | The sums of fe_mul as written are the columns; added from left to right, no term and no partial sum leaves 64 bits. |
| `FieldOps.SqColumns` | programs/ed25519.c:143-172 | The folded sums of fe_sq are the columns of the product of f with itself; no term and no partial sum leaves 64 bits. |
| `FieldOps.Sum10` | programs/ed25519.c:95-124 | Ten bounded terms added from left to right in 64 bits. |
| `FieldOps.CarryChain` | programs/ed25519.c:126-140 | The interleaved carries as written, with every rounding sum and every shifted carry within 64 bits. |
| `FieldOps.Mul` | programs/ed25519.c:83-141 | The product modulo 2^255 - 19 in small limbs, also when the result overwrites a factor. |
| `FieldOps.Sq` | programs/ed25519.c:143-189 | The square. |
| `FieldOps.Sq2` | programs/ed25519.c:192-196 | Twice the square; doubled after the carries, hence limbs within two carried ones. |
| `FieldOps.Add` | programs/ed25519.c:75-76 | The limb-wise sum, within 32 bits. |
| `FieldOps.Sub` | programs/ed25519.c:78-79 | The limb-wise difference, within 32 bits. |
| `FieldOps.Cmov` | programs/ed25519.c:65-70 | Takes the second operand exactly when the bit is set. |
| `FieldPower.Invert` | programs/ed25519.c:235-266 | The power p - 2 of the argument modulo p = 2^255 - 19, in small limbs, also when the result overwrites the argument. |
| `FieldPower.Pow22523` | programs/ed25519.c:201-232 | The power (p - 5)/8 of the argument. |
| `FieldBytes.EstimateIs` | programs/ed25519.c:278-289 | The carries of the estimate give the quotient of any carried value by 2^255 - 19, negative ones included. |
| `FieldBytes.ResidueIs` | programs/ed25519.c:291-301 | What v + 19 floor(v / p) leaves below 2^255 is the residue of v. |
| `FieldBytes.FindQuotient` | programs/ed25519.c:278-289 | The eleven steps of the estimate, each sum within 32 bits. |
| `FieldBytes.Residue` | programs/ed25519.c:276-301 | The limbs without sign after the carries stand for the residue; each sum fits 32 bits. |
| `FieldBytes.PackLowValue` | programs/ed25519.c:304-319 | Sixteen bytes cut from five limbs have their value. |
| `FieldBytes.PackHighValue` | programs/ed25519.c:320-335 | And so the sixteen of the upper limbs. |
| `FieldBytes.ToBytes` | programs/ed25519.c:270-336 | The 32 bytes are the residue below 2^255 - 19, whichever limbs stand for it. |
| `FieldBytes.IsZero` | programs/ed25519.c:365-369 | Zero exactly modulo 2^255 - 19. |
| `FieldBytes.IsNeg` | programs/ed25519.c:371-372 | The parity of the residue. |
| `FieldBytes.FromBytes` | programs/ed25519.c:338-363 | The number without its top bit, in small limbs. |
| `EdwardsCurve.CurveConstant` | programs/ed25519.c:376-380 | 121666 d = -121665 modulo p. |
| `EdwardsCurve.DoubledOnCurve` | programs/ed25519.c:430-450 | Doubling a point of the curve gives a point of the curve, for every modulus and every constant d. |
| `EdwardsCurve.AddedOnCurve` | programs/ed25519.c:453-475 | Adding two points of the curve gives a point of the curve, for every modulus and every constant d. |
| `EdwardsCurve.DoubledIsSum` | programs/ed25519.c:430-450 | Doubling satisfies the Edwards addition law of a point with itself, in projective form. |
| `EdwardsCurve.AddedIsSum` | programs/ed25519.c:453-475 | The sum satisfies the Edwards addition law. |
| `EdwardsOps.TwiceDValue` | programs/ed25519.c:381-385 | The limbs of the constant stand for 2d. |
| `EdwardsOps.P2Dbl` | programs/ed25519.c:430-442 | Every input of its products is within four carried limbs, and the four results stand for the factors of the double. |
| `EdwardsOps.P1p1ToP3` | programs/ed25519.c:421-427 | The four products of the factors. |
| `EdwardsOps.P3Dbl` | programs/ed25519.c:444-450 | Shows the double, with carried limbs again. |
| `EdwardsOps.P3ToCached` | programs/ed25519.c:411-418 | y + x, y - x, z and 2 d t. |
| `EdwardsOps.AddR` | programs/ed25519.c:453-467 | The factors of the sum, all within four carried limbs. |
| `EdwardsOps.GeAdd` | programs/ed25519.c:470-475 | Shows the sum, with carried limbs again. |
| `EdwardsOps.LadderStep` | programs/ed25519.c:565-579 | One round shows the double or the double plus the point, as the bit says, with carried limbs. |
| `EdwardsLadder.LadderOnCurve` | programs/ed25519.c:560-580 | Every point the 255 rounds pass is on the curve. |
| `EdwardsOps.Scalarmult` | programs/ed25519.c:560-580 | The 255 rounds show the double-and-add value of the scalar, without any limb or column overflow; which multiple this is, is what LadderMultiplies and LadderIsMultiple state. |
| `EdwardsLadder.DoubleAndAddKeeps` | programs/ed25519.c:560-580 | Double and add is one definition over anything that can be doubled and added: every relation between numbers and things that both operations keep holds between the bits of the scalar, read as a number, and the result. |
| `EdwardsLadder.LadderMultiplies` | programs/ed25519.c:565-579 | Over the integers, double and add gives (Num(scalar) mod 2^255) * a: the scalar is little-endian, its top bit ignored. |
| `EdwardsLadder.LadderIsMultiple` | programs/ed25519.c:560-580 | Any numbering of points that has 0 for the neutral point, 1 for the point multiplied, and the sum of the numbers for every sum under the addition law has Num(scalar) mod 2^255 for the result. |
| `EdwardsLadder.NeutralSum` | programs/ed25519.c:405-406 | The point the ladder starts from is neutral in the addition law. |
| `EdwardsBytes.RootOfMinusOne` | programs/ed25519.c:386-390 | The constant squares to -1 modulo p. |
| `EdwardsBytes.RootOnCurve` | programs/ed25519.c:489-528 | A root x of x^2 v = u makes (x, y) a point of the curve. |
| `EdwardsBytes.CandidateSquared` | programs/ed25519.c:503-511 | The square of the candidate times v is u (u v^7)^((p-1)/4), over the integers. |
| `EdwardsBytes.RootTurned` | programs/ed25519.c:517-521 | A root of -u times the square root of -1 is a root of u. |
| `EdwardsBytes.FindRoot` | programs/ed25519.c:513-521 | Succeeds exactly when the candidate squares to u/v or -u/v, and then holds a root. |
| `EdwardsBytes.FixSign` | programs/ed25519.c:523-524 | Ends with the root of the wanted parity, unless the root is zero. |
| `EdwardsBytes.Decode` | programs/ed25519.c:489-528 | Accepts exactly when the candidate or its turn is a root; then the point has the given y and sign and is on the curve. |
| `EdwardsBytes.Encode` | programs/ed25519.c:478-486 | The canonical y with the parity of x on top. |
| `EdwardsBytes.MultiplyDecoded` | programs/ed25519.c:489-580 | A multiple of any accepted encoding is a point of the curve. |
| `FatTable.GetSet` | programs/fat12.c:73-98 | Setting one packed entry reads back and changes no other, although neighbours share a byte. |
| `FatLayout.PackedPair` | programs/fat12.c:73-98 | An even entry and the next one are the low and the high 12 bits of three bytes, least significant byte first. |
| `FatTable.StartChain` | programs/fat12.c:101-112 | Taking a free cluster for an empty chain keeps all chains acyclic, disjoint and counted. |
| `FatTable.ExtendChain` | programs/fat12.c:101-112 | So does linking a free cluster behind the last one. |
| `FatTable.FreeHead` | programs/fat12.c:114-121 | So does giving back the first cluster of a chain; its old link is the next cluster. |
| `FatTable.FollowIsChain` | programs/fat12.c:114-121 | Following the links visits exactly the chain and stops. |
| `FatDir.SlotOfPut` | programs/fat12.c:286-294 | Writing one entry changes no other. |
| `FatLayout.ExtentLayout` | programs/fat12.c:400-402 | The first cluster is the little-endian 16-bit field at offset 26 of an entry, the size the 32-bit field at 28; the other bytes stay. |
| `FatLayout.NewEntryLayout` | programs/fat12.c:288-293 | A new entry holds the name, the archive attribute at offset 11 and zeros behind. |
| `FatLayout.Marks` | programs/fat12.c:180-428 | An entry is unused exactly when it starts with 0x00 or 0xE5, and the last entry of a chain is 0xFFF. |
| `FatDir.FindMeans` | programs/fat12.c:170-190 | In a well-formed directory the search finds the file of a name whenever there is one. |
| `FatDir.CreateKeepsDir` | programs/fat12.c:274-308 | A new entry in the first unused slot keeps the directory well-formed. |
| `FatDir.CreatedIsFound` | programs/fat12.c:274-308 | A created file is found under its name exactly unless the name begins with the deleted mark 0xE5. |
| `FatData.WriteAppends` | programs/fat12.c:370-379 | Patching the last cluster appends bytes to the stored contents. |
| `FatData.ReadsPiece` | programs/fat12.c:315-335 | Reading inside the cluster of a position gives the bytes of the contents there. |
| `Fat12.Volume.FatLoad` | programs/fat12.c:50-57 | The cached table, read from the first copy when not yet loaded. |
| `Fat12.Volume.FatFlush` | programs/fat12.c:59-70 | A dirty table goes to both copies, and only then. |
| `Fat12.Volume.FatGet` | programs/fat12.c:73-84 | The 12-bit entry of the table in use, loaded first if need be. |
| `Fat12.Volume.FatSet` | programs/fat12.c:86-98 | Sets one entry of the table in use and marks the cache dirty. |
| `Fat12.Volume.FatAlloc` | programs/fat12.c:101-112 | The free cluster of least number, marked as a last one; 0 exactly when none is free, and then nothing changes. |
| `Fat12.Volume.FatFreeChain` | programs/fat12.c:114-121 | Frees exactly the chain of one file and keeps the table sound. |
| `Fat12.Volume.DirFind` | programs/fat12.c:170-190 | Sector, index and entry of the first live slot of the name, stopping at the end mark. |
| `Fat12.Volume.FindUnused` | programs/fat12.c:283-307 | The first deleted or never used slot. |
| `Fat12.Volume.Create` | programs/fat12.c:274-308 | Succeeds exactly when the name is new and a slot is unused; all other contents stay and the volume stays sound, also under a name that begins with 0xE5, whose slot remains unused. |
| `Fat12.Volume.Write` | programs/fat12.c:347-390 | Writes as much as free clusters allow and returns that amount; the contents grow by it exactly unless they end on a cluster boundary, where the last cluster is overwritten; every other file and the directory stay and the volume stays sound. |
| `Fat12.Volume.WriteTwice` | programs/fat12.c:347-390 | After a first write of one whole cluster the contents of a new file are exactly the second write: the failing input for appending. |
| `Fat12.Volume.Close` | programs/fat12.c:392-407 | The table reaches flash, the entry of the writer gets its first cluster and size, and no other entry changes. |
| `Fat12.Volume.Delete` | programs/fat12.c:409-429 | Succeeds exactly when the name is found; frees its chain, marks its entry and changes no other file. |
| `Fat12.Volume.Open` | programs/fat12.c:255-272 | A reader at the start of the file with the size of its entry, exactly when the name is found. |
| `Fat12.Volume.Read` | programs/fat12.c:310-345 | The next bytes of the contents, fewer only at the end. |
| `Fat12.Volume.Format` | programs/fat12.c:194-237 | An empty sound volume with 121 free clusters. |
| `FatLayout.Geometry` | programs/fat12.c:200-231 | The parameter block that format writes describes the layout all other operations use: where tables, directory and clusters begin, how many entries and clusters there are, and that the table has room for them. |
| `FatLayout.ClusterSectors` | programs/fat12.c:125-128 | The clusters are the sectors from the end of the directory to the end of the flash, in order. |
| `FatLayout.ReservedEntries` | programs/fat12.c:221-225 | The two reserved entries hold the media byte of the boot sector and an end mark. |
| `Fat12.Volume.Mount` | programs/fat12.c:239-253 | On any flash, accepts exactly the boot sectors it can use and shows the table of the flash; a sound volume stays sound. |
| `Fat12.Volume.Sound` | programs/fat12.c:114-121 | In every sound state, the links from the entry of a closed file visit distinct clusters of no other file, and free clusters plus chain lengths are 121. |
| `Fat12.Run` | programs/fat12.c:194-429 | Every run of format, create, write, close and delete, in any order and of any length, leaves the volume sound. |
| `Fat12.Volume.Save` | programs/fat12.c:274-407 | Create, one write, close: succeeds exactly when the name is new, a slot unused and the bytes fit the free clusters; every other slot and its contents stay. |
| `Fat12.Volume.Load` | programs/fat12.c:255-345 | Open and reads of any sizes return the contents in order, up to their end. |
| `Fat12.Volume.SaveThenLoad` | programs/fat12.c:255-407 | One write followed by reads of any chunk sizes gives back the bytes written, and every other file and entry is unchanged. |
| `ForthModel.UntagTag` | programs/forth-bare.c:399-404 | A number that went through a compiled cell is the interpreted one exactly between -2^30 and 2^30 - 1. |
| `ForthModel.Find` | programs/forth-bare.c:247-256 | The newest word of a name, letter case ignored, or -1 when there is none. |
| `Forth.CompareNames` | programs/forth-bare.c:57-66 | The character loop tells whether two names are the same but for case. |
| `Forth.StrToL` | programs/forth-bare.c:101-137 | The value of a decimal number with optional sign, when the whole word is one. |
| `ForthModel.ParseDecimal` | programs/forth-bare.c:101-137 | Every number written in decimal, with or without a sign, is read back. |
| `Forth.Machine.PushValue` | programs/forth-bare.c:172-178 | Pushes, or halts on a full stack. |
| `Forth.Machine.PopValue` | programs/forth-bare.c:180-186 | Pops, or halts on an empty stack. |
| `Forth.Machine.RunBinary` | programs/forth-bare.c:205-243 | Takes two operands and leaves one result, which satisfies the law of the word on them (IsResult: sums and products modulo 2^32, the second operand subtracted from the first, quotient and remainder truncated, truth values, bits); stops on fewer than two operands and is undefined exactly for a zero divisor and -2^31 by -1. |
| `ForthArithmetic.BinaryIs` | programs/forth-bare.c:205-243 | The functions behind these words satisfy their laws for all operands, exactly where C defines a result. |
| `ForthArithmetic.ResultUnique` | programs/forth-bare.c:205-243 | The law of a word leaves only one result. |
| `ForthArithmetic.NotIs` | programs/forth-bare.c:244 | NOT turns every bit. |
| `ForthArithmetic.StackEffects` | programs/forth-bare.c:210-214 | DUP, DROP, SWAP, OVER and ROT have the stack effects of the Forth standard on any stack with room. |
| `Forth.Machine.RunStackWord` | programs/forth-bare.c:210-244 | The words that rearrange the stack, with their halts part way. |
| `Forth.Machine.RunOutputWord` | programs/forth-bare.c:215-238 | The words that print. |
| `ForthArithmetic.ListingAt` | programs/forth-bare.c:218-227 | .S shows every value of the stack once, the topmost last, each followed by a space. |
| `ForthArithmetic.NamesAt` | programs/forth-bare.c:229-238 | WORDS shows every name once, the newest first. |
| `Forth.Machine.RunColon` | programs/forth-bare.c:330-348 | Adds the word at once and starts compiling; a missing name does neither. |
| `Forth.Machine.FinishCompile` | programs/forth-bare.c:302-312 | Stores the compiled cells in the word and closes it. |
| `Forth.Machine.RunSemicolon` | programs/forth-bare.c:350-356 | Ends a definition, or complains outside of one. |
| `Forth.Machine.FindWord` | programs/forth-bare.c:247-256 | The dictionary walk finds the newest word of the name. |
| `ForthArithmetic.CaseIgnored` | programs/forth-bare.c:57-70 | In names a letter and its capital are the same. |
| `ForthArithmetic.FindAnyCase` | programs/forth-bare.c:247-256 | Names that differ in case only are found alike. |
| `Forth.Machine.ExecuteWord` | programs/forth-bare.c:270-284 | Runs a word to the outcome its cells have; terminates by dictionary order; older words never change meanwhile. |
| `Forth.Machine.CompileItem` | programs/forth-bare.c:294-300 | Appends one cell to the definition. |
| `Forth.Machine.OneToken` | programs/forth-bare.c:390-426 | One token: found words run or compile, numbers are pushed or compiled, anything else ends the line and the definition. |
| `Forth.Machine.InterpretLine` | programs/forth-bare.c:390-426 | The whole line has the outcome of its tokens in order; terminates. |
| `Forth.Machine.InitForth` | programs/forth-bare.c:429-453 | The dictionary holds the built-in words in order. |
| `Forth.BuiltinFound` | programs/forth-bare.c:429-453 | Looking up the name of any built-in word finds that word. |
| `Forth.SumNames` | programs/forth-bare.c:430-432 | The names + - * reach addition, subtraction and multiplication. |
| `Forth.QuotientNames` | programs/forth-bare.c:433-434 | The names / and MOD reach division and remainder. |
| `Forth.ComparisonNames` | programs/forth-bare.c:444-446 | The names = < > reach the three comparisons. |
| `Forth.LogicNames` | programs/forth-bare.c:447-449 | AND, OR and NOT reach the bitwise words. |
| `Forth.CopyNames` | programs/forth-bare.c:435-438 | DUP, DROP and OVER reach their words. |
| `Forth.OrderNames` | programs/forth-bare.c:437-439 | SWAP and ROT reach their words. |
| `Forth.OutputNames` | programs/forth-bare.c:440-442 | EMIT, CR and . reach their words. |
| `Forth.ListingNames` | programs/forth-bare.c:443-452 | .S and WORDS reach their words. |
| `Forth.DefiningNames` | programs/forth-bare.c:450-451 | The colon and the semicolon reach the words that define. |
| `Forth.ArithmeticLine` | programs/forth-bare.c:205-453 | A line of two numbers, any built-in two-operand word and the dot prints the result the law of the word asks for, and leaves stack and dictionary as they were. |
| `ForthMeaning.PlainWord` | programs/forth-bare.c:270-284 | A word that never reaches : or ; leaves dictionary, compiler and input alone and does not depend on the input. |
| `ForthMeaning.LaterWords` | programs/forth-bare.c:258-284 | Words added later change nothing about running an older one. |
| `ForthMeaning.SilentWord` | programs/forth-bare.c:270-284 | A word that reaches none of : ; WORDS does the same under any dictionary and before any input. |
| `ForthMeaning.StackWord` | programs/forth-bare.c:205-284 | What a word that reaches neither : nor ; does to the stack depends on the stack alone; it prints more under a longer dictionary if it reaches WORDS. |
| `ForthMeaning.BodyCompiles` | programs/forth-bare.c:390-426 | While compiling, a body of known words and numbers becomes exactly its cells. |
| `ForthMeaning.BodyRuns` | programs/forth-bare.c:390-426 | While interpreting, a body does exactly what running its cells does. |
| `ForthMeaning.DefinitionAdds` | programs/forth-bare.c:302-356 | Interpreting a whole definition adds one word with the cells of its body and leaves stack and output alone. |
| `ForthMeaning.CompiledMeansBody` | programs/forth-bare.c:247-426 | Invoking a compiled word does what interpreting its body would do, in any state, before any further input and under any later words, as long as the names of the word and of its body still find the same words. |
| `ForthMeaning.MeaningKept` | programs/forth-bare.c:247-356 | Whatever is defined or redefined afterwards, running the compiled word leaves the stack its body meant when it was compiled and changes nothing else but the output; the output is the same too exactly if the word does not reach WORDS or nothing was defined since. |
| `ForthMeaning.CalledLater` | programs/forth-bare.c:247-426 | The same for invoking the word by its name in a line, also when words of its body were redefined. |
| `ForthMeaning.ListingSeesLaterWords` | programs/forth-bare.c:229-238 | After defining W as WORDS and then X, running W prints X as well: the failing input for the output. |
| `Blake2s.Context.constructor` | programs/blake2s.c:153-163 | A fresh context is that of the empty message. |
| `Blake2s.Context.Count` | programs/blake2s.c:173-175 | The two-word counter goes on with its carry. |
| `Blake2s.CountCarry` | programs/blake2s.c:173-175 | Low word, high word and carry test together count bytes modulo 2^64. |
| `Blake2s.Context.Flush` | programs/blake2s.c:168-180 | A full buffer is compressed only when more follows, with the counter of all bytes so far; the buffer is zero again. |
| `Blake2s.Context.Update` | programs/blake2s.c:165-185 | The context depends only on the bytes fed, the buffer tail is zero and the counter is the number of bytes compressed. |
| `Blake2s.Context.Final` | programs/blake2s.c:187-201 | The digest of everything fed, the last block padded with zeros and marked. |
| `Blake2s.BehindIs` | programs/blake2s.c:165-185 | How many bytes are compressed before the last block; that block is empty only for the empty message. |
| `Blake2s.DigestOfParts` | programs/blake2s.c:153-209 | Every split of every message into updates gives the digest of the whole message, the one that DigestIsRun, MarkedCallDecides and CallsCounted characterise for every compression function. |
| `Blake2sLaws.DigestIsRun` | programs/blake2s.c:153-209 | The digest is what these calls of the compression function leave, one after the other from the parameter block: 64 bytes each, only the last one marked, filled with zeros, each with the number of bytes so far modulo 2^64; the state is written out as little-endian bytes and cut to outlen. |
| `Blake2sLaws.MarkedCallDecides` | programs/blake2s.c:187-201 | If every marked call answers w, whatever the rest of its arguments, the digest of every message is the first outlen bytes of w. |
| `Blake2sLaws.OneBlock` | programs/blake2s.c:204-209 | Two compression functions that agree on marked calls give the same digest for messages of at most 64 bytes. |
| `Blake2sLaws.CallsCounted` | programs/blake2s.c:165-201 | A compression function that counts its calls sees one marked call with the message length as its count, and (n - 1) / 64 unmarked ones (none for an empty message). |
| `Blake2sLaws.WordsBytesAt` | programs/blake2s.c:197-200 | Every word of the state is written least significant byte first. |
| `Blake2sLaws.StartIs` | programs/blake2s.c:153-163 | The first word of the first state differs from the initial vector by 0x01010000 + outlen, the other words are the initial vector. |
| `Blake2sLaws.InitialVector` | programs/blake2s.c:70-74 | The initial vector holds the first 32 fractional bits of the square roots of the first eight primes. |

## Left out

- The emulator, its debugger and its peripherals; the programs not listed above; `main` functions, test vectors and
  logging.
- Null pointer checks, and the `int` lengths of inputs of 2^31 bytes or more. Inputs that are only read are
  sequences, so a program that passes one buffer as input and output is not covered.
- Names and line input: splitting lines into words, UART echo, the Forth word-length limit, and `name_to_83`;
  files are given by their 8.3 names, which do not begin with a zero byte.
- `chacha20_block` and `blake2s_compress` are parameters of the modules that use them: everything is proved for
  every block function.
- `adler32` and the zlib envelope; `fat12_readdir`; return-stack words of the Forth, which no built-in word uses.
- Signatures: `sc_reduce`, `sc_muladd`, SHA-512, `ge_scalarmult_base`; no primality of 2^255 - 19 and hence no
  inverse law of `fe_invert`; no associativity of the Edwards law.
- HuffmanCodec.AssignCodes: requires depth at most 32, because the shift by a larger depth is undefined in C;
  `HuffmanTree.DepthBound` gives the totals for which this holds.
- HuffmanRoundTrip.RoundTrip: messages of at most 9227464 bytes, because a longer one may need codes of more than
  32 bits.
- HuffmanRoundTrip.Optimal: totals below 2^32, because node counts wrap around beyond.
- InflateTable.Decode: for an oversubscribed table only safety, progress and the number of bits read are stated,
  because the code ignores the result of `construct` there.
- InflateStream.DynamicTables: says nothing about the values of a header with an oversubscribed table, and stops with
  an error of its own for nlen + ndist above 318, where the C code would leave its array.
- InflateStream.DeflateDecompress: for such streams only termination and bounds are stated.
- InflateStored.InflateStored: evaluates the two reads of each 16-bit field from left to right; C leaves the order open.
- Gzip.GzipDecompress: for deflate data with such headers only the bound on the result is stated.
- Gzip.GzipCompress: source and destination are different arrays, of less than 2^32 bytes.
- PolyStream.Context.constructor: r, its multiples by 5 and s are constants of the context, because nothing assigns
  them later; the masks that choose between h and h + 5 are a conditional.
- FieldOps.Cmov: a conditional assignment instead of a mask and exclusive ors, so constant time is not modelled.
- Aead.Open: the comparison visits all sixteen bytes as in C, but timing is not modelled.
- FieldPower.Invert: states the power p - 2; that it is the inverse needs the primality of 2^255 - 19.
- EdwardsLadder.LadderIsMultiple: for numberings that the addition law carries over to sums; that the curve is a group,
  with one such numbering of the multiples of a point, needs associativity.
- EdwardsBytes.Decode: says exactly when the code accepts; that a rejected y has no point on the curve needs the
  primality of 2^255 - 19.
- Fat12.Volume.Create: requires a handle that is not writing another file, because its chain would be lost. Under a name
  that begins with byte 0xE5 the handle has no file of the model, because the next `fat12_create` takes its slot again;
  writes through it are not modelled.
- Fat12.Volume.Write: for handles from `fat12_create`; writes through `fat12_open` handles are not modelled.
- Fat12.Volume.Read: for closed files whose recorded size is that of their contents; a file that lost data to the
  cluster boundary records more.
- Fat12.Volume.Delete: requires that nobody writes the file, because a later write would go to freed clusters.
- Fat12.Run: a command that breaks such a rule (a write or close without an open writer, a delete of a file being written)
  is passed over.
- Fat12.Volume.FatFlush: sector writes are atomic; write enable and the SPI protocol are not modelled.
- Forth.Machine.InterpretLine: signed overflow, undefined in C, is taken to wrap around in 32 bits (`long` has 32 bits
  on the target). A failing `malloc`, the output before an endless loop, division by zero or of the least
  integer by -1, DUP on an empty stack, and a word that runs itself have no stated outcome.
- ForthMeaning.MeaningKept: for bodies without `:`, `;` and the word itself; a body with them reads further input, defines
  words or does not end.
- HuffmanRoundTrip.DecodeMessage: for the 512-byte output of the round trip; `HuffmanCodec.Decode` takes any capacity.
