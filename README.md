# Streaming codecs: bit packing, LZW and Hamming(8,4)

This project models the core of a small C codec toolkit and proves properties of the model in Dafny. The core has five parts:

- **Bit streams** (`bit_io.c`, `bit_io.h`). A `bits_out` keeps a one-word buffer. It packs variable-width codes least significant bit first and writes each full word little-endian. `flush_bits` then writes the remaining bits as whole bytes and returns the number of padding bits. A `bits_in` refills its buffer one word of input at a time. `read_bits` returns the number of bits it could deliver.
- **Sparse child map** (`sparse.c`, `sparse.h`). A singly linked list of nodes tagged with byte indices, kept in ascending order and always headed by index 0. `sparse_at` returns the slot for an index and inserts a node with a null item when the index is missing.
- **LZW encoder** (`lzw_encode.c`). It walks a trie with 256 roots and sparse children. It emits the code of the longest known word, adds one node per mismatch with codes from 256 upward, and widens the codes when the largest code reaches a power of two.
- **Older LZW encoder** (`lzw.c`). The same walk, an equality test for widening, and an extra trailing byte that holds the padding count.
- **LZW decoder** (`lzw_decode.c`). A flat, growable array of backward-linked entries `(prev, last, length)`. It reads the first code as a raw byte. It handles the KwKwK case (a code equal to the entry about to be added), counts invalid codes and stops on the tenth.
- **Hamming(8,4) SECDED codec** (`hamming.c`). GF(2) encoding, check and projection matrices written as bit sums over `bv8`/`bv16`. A stream encoder writes two bytes per byte. A stream decoder corrects one flipped bit per half and reports two.

File descriptors are replaced by byte sequences. Input is the sequence of bytes not yet read, output is the sequence written so far, and a short read means the sequence has ended.

The machine `word` (`uintmax_t`) is 64 bits and little-endian. It is modelled as an integer below 2^64, with `>>`, `<<`, `|` and `&` written out as functions (`Words.Shr`, `Shl`, `Or`, `And`). All their properties are stated through `Words.Bits`, the bits of a value as a sequence. The integer form keeps the proofs at a size the solver handles, which symbolic `bv64` shifts do not.

Modules, one per source file:

- `Words` (`general.h`): bytes, words and the C operators.
- `BitIO` (`bit_io.c`).
- `SparseList` (`sparse.c`).
- `LzwCodes`: code widths, packing, and the dictionary relation shared by encoder and decoder.
- `LzwEncode` (`lzw_encode.c`).
- `LzwDecode` (`lzw_decode.c`).
- `LzwRoundTrip`: decoding undoes encoding.
- `LzwOld` (`lzw.c`).
- `Hamming` (`hamming.c`).

Each imperative source function is a method or a class. Each method is proved equal to a specification function on values (`WriteBitsOf`, `ReadBitsOf`, `AtOf`, `Scan`, `Run`, `DecodeStream`). The lemmas state what those functions guarantee.

Three details follow the code exactly, where a reader might expect otherwise:

- `flush_bits` does not reset `buffer_length`. The buffer is left as it was.
- The encoder's widening test is `>=` in `lzw_encode.c`. The `==` test of `lzw.c` behaves the same, because `max_ix` only grows by one from below `next_power` (`LzwOld.Emit`).
- `read_bits`, after a short read, leaves `buffer_length` wrapped modulo 256. The model keeps that value: `BitIO.ReaderValid` allows it, with an empty buffer and no input.

## Model

| member | source | states |
|---|---|---|
| `Words.WordBytesBits` | byte_io.c:33-35 | the bytes `write_word` emits for a word carry its bits least significant first, so a word becomes 8 bytes in little-endian order |
| `Words.LoadWordBits` | byte_io.c:12-25 | `read_amap` of up to 8 bytes into a zeroed word gives a word whose 64 bits are the stream bits of those bytes followed by zeros |
| `Words.AndLowMask` | bit_io.c:44 | `x & ((1 << n) - 1)` is below 2^n and keeps exactly the low n bits of x |
| `Words.OrShl` | bit_io.c:58 | `x \| (y << k)`, with x below 2^k, is a word whose bits are the k bits of x followed by the low 64 - k bits of y |
| `BitIO.WriteBitsCorrect` | bit_io.c:52-67 | `write_bits` appends exactly the low bit_count bits of `bits` to the written stream and keeps `buffer_length < 64` with no stray bit above it |
| `BitIO.WriteFilledCorrect` | bit_io.c:54-61 | when the new bits fill the buffer, one word `buffer \| bits << buffer_length` is written and only the bit_count - bits_left excess bits stay buffered |
| `BitIO.WriteBufferedCorrect` | bit_io.c:62-66 | otherwise the bits are placed at position buffer_length, the length grows by bit_count and nothing is written |
| `BitIO.FlushCorrect` | bit_io.c:74-79 | `flush_bits` returns a padding count below 8 that makes the stream whole bytes, and the bytes written are the buffered stream followed by that many zero bits |
| `BitIO.BitWriter.constructor` | bit_io.h:35 | `BITS_OUT` starts with an empty buffer and nothing written |
| `BitIO.BitWriter.WriteBits` | bit_io.c:52-67 | the method updates buffer, buffer_length and output exactly as `WriteBitsOf` and keeps the writer valid |
| `BitIO.BitWriter.FlushBits` | bit_io.c:74-79 | writes the bytes and returns the padding count exactly as `FlushOf`, and leaves buffer and buffer_length unchanged |
| `BitIO.ReadBitsCorrect` | bit_io.c:10-46 | `read_bits` returns min(bit_count, pending bits), the word is below 2^bits_set and holds the first bits_set pending bits, after a full read the rest are still pending, and after a short read the reader is exhausted with buffer_length wrapped |
| `BitIO.BufferedReadMeets` | bit_io.c:20-26 | when the buffer holds at least bit_count bits, the low bit_count bits are returned and shifted out, and the length drops by exactly bit_count |
| `BitIO.RefillReadMeets` | bit_io.c:27-42 | in the refill branch the delivered bits are the pending ones, and the count is bit_count unless the input ran short |
| `BitIO.RefillWord` | bit_io.c:35-44 | after a refill the old buffered bits form the low part of the result with the new input above them, and bits_set is buffer_length + bits_read exactly when fewer bits were read than needed |
| `BitIO.RefillNextShort` | bit_io.c:35-41 | a short refill leaves an empty buffer, no input and `buffer_length` equal to bits_set + 256 - bit_count |
| `BitIO.RefillNextFull` | bit_io.c:38-41 | a full refill keeps `input >> bits_needed`, and the pending stream is what followed the delivered bits |
| `BitIO.BitReader.constructor` | bit_io.h:16 | `BITS_IN` starts with an empty buffer, and the pending bits are the input's |
| `BitIO.BitReader.ReadBits` | bit_io.c:10-46 | the method returns bits_set and the masked word and updates the reader exactly as `ReadBitsOf` |
| `BitIO.BitReader.Remaining` | bit_io.c:35-37 | a query added by the model, with no C counterpart: the number of pending bits, which is the bits_set a short read returns; the decoder asks it at widths of 31 or more instead of calling `read_bits` |
| `BitIO.BitReader.Refill` | bit_io.c:27-42 | the refill branch loads up to a word of input, moves the input on by the bytes read and sets buffer and buffer_length as `RefillRead` |
| `SparseList.NewSparse` | sparse.c:9-15 | `sparse_new` gives a one-node list with index 0 and a null item |
| `SparseList.Stop` | sparse.c:47-50 | the walk stops at the first node whose index is not below ix, or at the end |
| `SparseList.AtValid` | sparse.c:41-61 | after `sparse_at` the indices are still strictly ascending from a head of index 0, the returned slot has the index asked for, and the head node is unchanged |
| `SparseList.AtPresent` | sparse.c:47-52 | with the index present, `sparse_at` returns that node's slot and leaves the list unchanged |
| `SparseList.AtAbsent` | sparse.c:52-59 | with the index absent, exactly one node with that index and a null item is inserted, and the nodes before and after it are kept in order |
| `SparseList.AtFinds` | sparse.c:30-61 | the returned slot holds the item stored under the index before the call, or null when there was none, and the list is unchanged when the item was found |
| `SparseList.LookupAfterSet` | sparse.c:30-35 | writing through the returned slot sets the item for that index and no other |
| `SparseList.SetItemValid` | sparse.c:60 | writing an item through a slot keeps the list valid |
| `SparseList.ItemsMembers` | sparse.c:20-28 | `sparse_free` hands an item to free_item exactly when some node holds it |
| `SparseList.ItemsCount` | sparse.c:20-28 | `sparse_free` makes one free_item call per node holding a non-null item |
| `SparseList.Sparse.constructor` | sparse.c:9-15 | a new sparse is `NewSparse` |
| `SparseList.Sparse.At` | sparse.c:41-61 | the `prev`/`s` walk and the splice give exactly `AtOf`: a valid list with the index at the returned position |
| `SparseList.Sparse.Store` | lzw_encode.c:94 | storing through the slot changes only that node's item |
| `SparseList.Sparse.Free` | sparse.c:20-28 | the non-null items are handed over once each, in list (key) order, and the list is released |
| `LzwCodes.BitLengthBounds` | lzw_encode.c:53-59 | bit_count is the smallest width with `max_ix < 2^bit_count` |
| `LzwCodes.WidthBounds` | lzw_decode.c:86-106 | code 0 takes 8 bits, every later code at least 9, and code k fits its width |
| `LzwCodes.PackSnoc` | lzw_encode.c:85 | writing one more code appends its bits at the width of its position in the stream |
| `LzwEncode.Find` | lzw_encode.c:74-76 | a word lookup succeeds exactly when the word is in the dictionary, and then returns its code |
| `LzwEncode.RootsValid` | lzw_encode.c:66-69 | root i has code i and the one-byte word i, and no two roots share a word |
| `LzwEncode.RootsTrie` | lzw_encode.c:66-69 | the 256 childless roots are the trie of the starting dictionary |
| `LzwEncode.AddWord` | lzw_encode.c:86-94 | adding a new word whose prefix is known keeps codes unique and the dictionary prefix-closed |
| `LzwEncode.NoExtension` | lzw_encode.c:94 | no known word extends an unknown one, so the new node starts with no children |
| `LzwEncode.StepKnown` | lzw_encode.c:76-80 | descending to a known child keeps the encoder invariant |
| `LzwEncode.StepNew` | lzw_encode.c:81-98 | on a mismatch, emitting the current code, adding the extended word with the next code and restarting at the byte's root keeps the invariant |
| `LzwEncode.StepInv` | lzw_encode.c:73-98 | each input byte keeps the invariant: the dictionary is valid, there is one new word per emitted code, code k is below 256 + k, and the emitted words plus the current word are the bytes consumed |
| `LzwEncode.ScanInv` | lzw_encode.c:71-99 | the invariant holds after every prefix of the input |
| `LzwEncode.EncodeTrace` | lzw_encode.c:71-104 | the emitted codes and the final dictionary form an LZW trace, codes emitted = new nodes + 1, and the concatenated words of the codes are the input |
| `LzwEncode.AddNode` | lzw_encode.c:85-97 | hanging a node with the next code on the slot `sparse_at` returned keeps the arena the trie of the extended dictionary |
| `LzwEncode.Advance` | lzw_encode.c:74-98 | one loop pass over the arena and writer realises one `Step` of the reference walk and keeps the width invariant |
| `LzwEncode.AddChild` | lzw_encode.c:81-98 | the mismatch branch writes the code, counts exactly one more code, and adds one node |
| `LzwEncode.Emit` | lzw_encode.c:85-93 | the current code (`<= max_ix < 2^bit_count`) is written in bit_count bits, max_ix rises by one, and `2^(bit_count-1) <= max_ix < next_power == 2^bit_count` still holds |
| `LzwEncode.StartWalking` | lzw_encode.c:58-71 | the loop starts with max_ix 255, next_power 256, 8-bit codes and nothing written |
| `LzwEncode.WalkInput` | lzw_encode.c:58-99 | the main loop computes `Scan` of the input and leaves the counters and the written bits in step with its codes |
| `LzwEncode.Finish` | lzw_encode.c:100-104 | the last code is written and the writer flushed: the output is the packed codes and a zero padding to a whole byte |
| `LzwEncode.Encode` | lzw_encode.c:41-110 | empty input writes nothing; otherwise the output bits are the codes packed at their widths, then padding |
| `LzwDecode.WordOf` | lzw_decode.c:16-31 | the word of an entry has the entry's length and ends in its last byte |
| `LzwDecode.InitValid` | lzw_decode.c:105-118 | the starting state satisfies the decoder invariant: 512 slots with entries 0..255 set to `(-1, i, 1)`, max_ix 256, next_power 512 and 9-bit codes |
| `LzwDecode.Init` | lzw_decode.c:90-120 | the state after the first byte satisfies the decoder invariant, with max_ix 256, 9-bit codes and prev the first byte |
| `LzwDecode.Grow` | lzw_decode.c:170-197 | max_ix rises by one; when it reaches next_power, both next_power and bit_count step up; the new entry is stored at the old max_ix; earlier entries are unchanged |
| `LzwDecode.GrowValid` | lzw_decode.c:170-193 | growth keeps `capacity == next_power == 2^bit_count > max_ix` and every entry at 256 or above linked to an earlier entry (`0 <= prev < k`) with length one more; only the 256 roots have prev -1 |
| `LzwDecode.ExtendChained` | lzw_decode.c:186 | `realloc` keeps the old entries and their links |
| `LzwDecode.ChainedStore` | lzw_decode.c:193 | storing `(prev, first, dict[prev].length + 1)` keeps every entry's prev below it and its length one more than prev's, with prev -1 only on the 256 roots |
| `LzwDecode.Step` | lzw_decode.c:134-198 | a pass that goes on leaves a valid decoder with max_ix one higher |
| `LzwDecode.Decode` | lzw_decode.c:68-92 | empty input writes nothing; otherwise the first byte is written unchanged, and the run always ends |
| `LzwDecode.NewWord` | lzw_decode.c:188-193 | the entry added is the previous code's word extended by the first byte written, or by 0 after an invalid code |
| `LzwDecode.KwKwK` | lzw_decode.c:143-153 | a code equal to max_ix writes the previous word followed by its own first byte, which is exactly the word then added |
| `LzwDecode.InvalidCode` | lzw_decode.c:154-169 | a code above max_ix writes nothing and is counted; the tenth one aborts, and otherwise the new entry ends in 0 |
| `LzwDecode.SameWord` | lzw_decode.c:186-193 | entries that agree below n have the same words below n, so growth never changes a known word |
| `LzwDecode.WriteDataWord` | lzw_decode.c:44-63 | `write_data_word` fills a buffer of exactly the entry's length backwards along the chain; the bytes are the word in forward order and the first of them is returned |
| `LzwDecode.NewDictionary` | lzw_decode.c:112-118 | the array starts with 512 slots and the 256 literals |
| `LzwDecode.Realloc` | lzw_decode.c:186 | `realloc` keeps the old entries and adds uninitialised slots |
| `LzwDecode.Extend` | lzw_decode.c:170-193 | the array code counts one code, grows in step with next_power and stores the new entry, as `Grow` |
| `LzwDecode.DecodeCode` | lzw_decode.c:136-197 | one pass over the array computes `Step`: the bytes written, the status, and the next state |
| `LzwDecode.RunShort` | lzw_decode.c:128-134 | with fewer than bit_count bits left, decoding writes nothing more and ends complete |
| `LzwDecode.RunCode` | lzw_decode.c:134-198 | with a full code available, the run is that code's pass followed by the run on the remaining bits |
| `LzwDecode.RunWide` | bit_io.c:35-44 | at a width of 31 bits or more, a final short read of at most 30 bits (below width 64) ends the run `Completed`, as lzw_decode.c:134 does; a full read there ends it `Undefined`, because `1 << bits_set` overflows an `int` |
| `LzwDecode.LzwDecode` | lzw_decode.c:68-202 | the decoding loop over the array and the bit reader writes exactly the bytes of `Decode` and ends the same way |
| `LzwRoundTrip.InitAgrees` | lzw_decode.c:86-118 | after the first code the decoder agrees with the encoder's trace |
| `LzwRoundTrip.SayTrace` | lzw_decode.c:137-153 | each code of an encoder trace is known to the decoder (directly or as KwKwK) and writes its word |
| `LzwRoundTrip.GrowTrace` | lzw_decode.c:188-193 | the entry the decoder adds after code j is the word the encoder assigned code 255 + j |
| `LzwRoundTrip.StepTrace` | lzw_decode.c:136-197 | code j of the trace writes its word and keeps the decoder one code behind the encoder |
| `LzwRoundTrip.ReadWidth` | lzw_decode.c:170-178 | the decoder reads code j at the width the encoder wrote it with |
| `LzwRoundTrip.DecodeTrace` | lzw_decode.c:86-198 | a stream holding the packed codes of a trace and fewer than 9 zero bits decodes to what the codes stand for and ends complete |
| `LzwRoundTrip.ShortInputFits` | lzw_decode.c:25 | inputs of at most 32767 bytes emit only words whose length fits a `short` |
| `LzwRoundTrip.RoundTrip` | lzw_decode.c:128-198 | the bytes `lzw_encode` writes decode back to its input, and the run ends at the end of the stream |
| `LzwRoundTrip.EncodeThenDecode` | lzw_encode.c:41-104 | for inputs shorter than about 2^30 bytes whose emitted words fit 32767 bytes (every input of at most 32767 bytes), running the encoder method, then the decoder method, gives back the input |
| `LzwOld.Encode` | lzw.c:27-63 | as written: empty input writes nothing; otherwise the output is the packed encoding of the input with its first byte replaced by 1, then the padding count byte |
| `LzwOld.EncodeCorrected` | lzw.c:27-63 | with the first byte kept, the output is the packed encoding of the input, then the padding count byte |
| `LzwOld.EncodeFrom` | lzw.c:31-58 | from the root of the first byte, the walk over the rest writes the packed codes, the padding and the padding count |
| `LzwOld.Walk` | lzw.c:33-55 | the main loop computes `Scan` from the roots and keeps counters and output in step |
| `LzwOld.Advance` | lzw.c:41-55 | one loop pass realises one step of the walk |
| `LzwOld.AddChild` | lzw.c:45-54 | the mismatch branch writes the code, counts one code and adds one node |
| `LzwOld.Emit` | lzw.c:46-51 | with the `==` widen test, each code is still written at the width of its position, and `2^(bit_count-1) <= max_ix < next_power == 2^bit_count` still holds |
| `LzwOld.Finish` | lzw.c:56-58 | after the final code and the flush, exactly one more byte carries the padding count |
| `LzwOld.FirstByteLost` | lzw.c:29-39 | the one-byte input 0x41 is encoded as code 1 instead of code 0x41 |
| `LzwOld.AsWrittenDecodes` | lzw.c:29-39 | for inputs of at most 32767 bytes, the stream as written decodes to the input with its first byte replaced by 1, so every such input whose first byte is not 1 comes back changed |
| `LzwOld.CorrectedDecodes` | lzw.c:27-58 | corrected, for inputs within the bounds of `LzwRoundTrip.RoundTrip`, the bytes before the padding count decode to the input |
| `Hamming.EncodeLinear` | hamming.c:21-27 | encoding is GF(2)-linear: `ENC(a ^ b) == ENC(a) ^ ENC(b)` |
| `Hamming.CheckLinear` | hamming.c:59-67 | the syndrome is GF(2)-linear |
| `Hamming.ProjectLinear` | hamming.c:68-74 | the projection is GF(2)-linear |
| `Hamming.EncodeNibbles` | hamming.c:12-20 | the low nibble determines only the low code byte and the high nibble only the high code byte |
| `Hamming.CheckEncoded` | hamming.c:42-67 | every code word has syndrome 0 (all 256 bytes) |
| `Hamming.ProjectEncoded` | hamming.c:69-74 | projecting a code word gives back its data byte |
| `Hamming.FlippedSyndrome` | hamming.c:90 | the syndrome of a flipped code word is the syndrome of the error pattern |
| `Hamming.LowSingle` | hamming.c:95-106 | a single flip in the low byte gives a low syndrome with bit 3 set whose `(s - 1) & 7` names the flipped bit, and no flip gives 0 |
| `Hamming.HighSingle` | hamming.c:116-119 | the same for the high byte, through the high syndrome nibble and offset 8 |
| `Hamming.LowDouble` | hamming.c:107-113 | two flips in the low byte give a nonzero low syndrome with bit 3 clear |
| `Hamming.HighDouble` | hamming.c:120-123 | two flips in the high byte give a nonzero high syndrome with bit 3 clear |
| `Hamming.LowFlipSyndrome` | hamming.c:95-105 | flipping bit p < 8 of any code word sets bit 3 of the low syndrome, and the named position is p |
| `Hamming.HighFlipSyndrome` | hamming.c:116-118 | flipping bit p in 8..15 of any code word sets bit 3 of the high syndrome, and the named position plus 8 is p |
| `Hamming.LowDoubleSyndrome` | hamming.c:107-113 | flipping two distinct low bits of a code word gives a nonzero low syndrome with bit 3 clear |
| `Hamming.HighDoubleSyndrome` | hamming.c:120-123 | flipping two distinct high bits gives a nonzero high syndrome with bit 3 clear |
| `Hamming.ErrorSyndrome` | hamming.c:90-92 | the syndrome of a flipped code word splits into the syndromes of the error's two halves |
| `Hamming.HalvesSyndrome` | hamming.c:90-92 | with at most two flips per half the low nibble depends only on the low half and the high nibble only on the high half |
| `Hamming.DecodeErrors` | hamming.c:90-126 | decoding a code word with at most two flips per half removes each single flip, leaves each double flip, and reports each double once |
| `Hamming.CorrectsSingleErrors` | hamming.c:95-126 | at most one flip per half is corrected, and the data byte comes back with no report |
| `Hamming.ReportsDoubleErrors` | hamming.c:107-123 | each half with two flips is reported once and nothing else is |
| `Hamming.DecodeCodeWord` | hamming.c:80-128 | a clean code word decodes to its byte with nothing reported |
| `Hamming.LittleEndian` | hamming.c:38 | the 2-byte write is the low byte, then the high byte |
| `Hamming.EncodeStream` | hamming.c:29-40 | encoding writes two bytes per input byte |
| `Hamming.Units` | hamming.c:85-86 | decoding reads one unit per two input bytes, with a trailing odd byte as a unit of its own |
| `Hamming.DecodeStream` | hamming.c:76-128 | decoding writes one byte per unit of up to two bytes |
| `Hamming.FrameUnits` | hamming.c:38 | reading a framed stream two bytes at a time gives back its units |
| `Hamming.DecodeEncode` | hamming.c:33-128 | decoding undoes encoding, with no reports |
| `Hamming.CorrectsStream` | hamming.c:80-128 | with at most one flip per half of every unit, the stream still decodes to the data with no report |
| `Hamming.ReportsStream` | hamming.c:80-128 | with at most two flips per half, exactly the halves with two flips are reported |
| `Hamming.TrailingByte` | hamming.c:85-86 | a lone trailing byte is zero-extended; if it is the low byte of a code word it decodes to the low data nibble |
| `Hamming.HammingEncode` | hamming.c:33-40 | the encoding loop writes exactly `EncodeStream` |
| `Hamming.ReadUnit` | hamming.c:85-86 | a read of two bytes forms the unit low byte first, and a read of one byte is masked with `& 0xFF` |
| `Hamming.CorrectUnit` | hamming.c:90-123 | the in-place correction of the unit and the count of double errors are those of `DecodeWord` |
| `Hamming.HammingDecode` | hamming.c:80-128 | the decoding loop writes exactly the bytes of `DecodeStream` and reports its double errors |

## Findings

| source | as written | input that shows it | evidently intended | confidence | as-written member | corrected member |
|---|---|---|---|---|---|---|
| lzw.c:29 | `next_byte = read(in, &next_byte, 1)` overwrites the first input byte with read's return value 1, so the walk starts at `dict_root[1]` | the one-byte input `0x41` is encoded as code 1 and decodes to `0x01` | start the walk at the root of the first byte read, as lzw_encode.c:51,71 does | high (not executed) | `LzwOld.FirstByteLost`, `LzwOld.AsWrittenDecodes` | `LzwOld.EncodeCorrected`, `LzwOld.CorrectedDecodes` |

## Left out

- `byte_io.c` and the `read`/`write` system calls are not modelled as I/O. Reading consumes a prefix of an input byte sequence, and a short read means the sequence ended. Writing appends to an output sequence. `read_amap` delivers all remaining bytes, up to the count asked for.
- Byte order: the host is taken to be little-endian. `write_word` emits 8 bytes, least significant first, and the 2-byte write in `hamming.c` emits the low byte first.
- `WHINE` diagnostics are not modelled as text. The decoder counts invalid codes, and the Hamming decoder returns the number of double errors it reports.
- `exit(3)` after ten invalid codes becomes the `Aborted` status. Bytes written before it are kept.
- `malloc`/`free`: allocation failure is not modelled. `bytetree_free`, the freeing loop of `lzw_encode.c:106-109` and `free(dict)` have no observable effect and are not modelled. `sparse_free` is modelled only as the sequence of items it hands to `free_item`.
- `bits_out_example` and `bits_in_example` (bit_io.c:82-103) are demonstration programs that print. They are not part of this model.
- `main.c`, `subcommands.h` and `biterror.py` (dispatch, pipelines and random bit flips) are not part of this model.
- `BitIO.BitWriter.WriteBits`: requires `bits < 2^bit_count`, because `write_bits` does not mask its argument. It also excludes a 64-bit write into an empty buffer, because `bits >> 64` is undefined in C.
- `BitIO.BitReader.ReadBits`: requires `bit_count < 31`, because `1 << bits_set` is an `int` shift.
- `LzwEncode.Encode`: requires the input to be shorter than about 2^62 bytes, so that no code reaches 64 bits.
- `LzwDecode.Decode`: a run that writes a word from an uninitialised slot ends with status `Undefined`. So does a read of a full code of 31 bits or more, where `1 << bits_set` overflows an `int`. Both are undefined behaviour in C, and their output is not modelled. A short final read at such a width is defined and ends the run `Completed`. An uninitialised slot can be reached after an invalid code has become `prev`.
- `LzwDecode.Decode`: a run that writes a word longer than 32767 bytes also ends `Undefined`. A word of exactly 32768 bytes depends on two implementation-defined `short` conversions (lzw_decode.c:50, 193), so it is left out; where they wrap, C writes it correctly. Longer words are undefined behaviour (an empty or overrun `buf`).
- `LzwDecode.RunWide`: at widths of 64 bits or more every read is taken as `Undefined`. A short read there is defined in C whenever `bit_count - buffer_length` is below 64. Reaching such a width takes about 2^63 codes.
- `LzwRoundTrip.RoundTrip`: proved only for inputs shorter than about 2^30 bytes, so codes stay below 31 bits. Every word emitted must also fit a `short` (`WordsFit`), which every input of at most 32767 bytes meets (`LzwRoundTrip.ShortInputFits`). Longer inputs reach the limits above. `LzwRoundTrip.EncodeThenDecode` and `LzwOld.CorrectedDecodes` carry the same two bounds. `LzwOld.AsWrittenDecodes` is proved for inputs of at most 32767 bytes.
- `LzwEncode.Encode`: the trie arena is a sequence of nodes addressed by code. Each child list is updated through the value-level `SparseList.AtOf`/`SetItem` rather than through a shared `SparseList.Sparse` object, so aliasing between trie nodes is not modelled.
- `Hamming`: error patterns are stated per 16-bit unit of the encoded stream. A stream whose length is changed by the corruption is not covered by the stream lemmas; `Hamming.TrailingByte` covers one truncated unit.
