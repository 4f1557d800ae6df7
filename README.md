# A Dafny model of a static Huffman codec

`huffman.c` is one C program that compresses `input.txt` into `encoded.bin` and
then decompresses that file into `decoded.txt`. Compression works as follows:

- It counts how often each of the 256 byte values occurs.
- It puts one leaf per used byte into a binary min-heap keyed by weight.
- It repeatedly takes two nodes out of the heap with `heap_remove_min` and
  merges them until one root is left. They are the two lightest only while the
  heap is in order (see below).
- It labels every root-to-leaf path with 0 (left) and 1 (right) to get the codes.
- It writes a header. The header holds the number of used symbols as an `int`,
  then one record per used symbol: the symbol byte followed by its frequency as
  an `unsigned long long`.
- It packs the code bits most significant bit first. A last partial byte is
  shifted left and filled with zeros.

Decompression reads the header back into a zeroed frequency table. It rebuilds
the tree with the same heap code. It then walks the tree bit by bit, from bit 7
down to bit 0 of every payload byte. On reaching a leaf it writes the leaf's
symbol and goes back to the root.

The model keeps the program's structure:

- **Heap.** A class `MinHeap.Heap` holds a fixed array of 256 slots and a
  `count`. Its `Insert` and `RemoveMin` methods run the source's sift loops on
  the array. Each method is proved to compute the functions `Inserted` and
  `RemovedMin`, which describe the loops step by step.
- **Loops.** The frequency scan, the header writer and reader, the bit packer
  and the decoding walk are methods with loop invariants. Each is proved equal
  to a specification function.
- **Recursive parts.** The tree, code assignment and packing arithmetic are
  datatypes, functions and lemmas.
- **Whole program.** `Codec.Compress` and `Codec.Decompress` compose the parts
  the way `main` does, with the files replaced by byte sequences.

The program has three behaviours that the model reproduces as written and states
as lemmas. Only the first leaves the round trip of the symbols intact, because
the decoder rebuilds the same tree with the same heap code. The other two
change what decoding returns: the padding adds symbols, and a single distinct
byte comes back as nothing.

- **Sift-down does not restore heap order.** `heap_remove_min` compares the
  children of the hole with the node still stored in the hole, not with the
  `last` node it is placing. At the root that is the removed minimum, so `last`
  is dropped at the root without sinking. After one removal the heap can be out
  of order, and the next removal can return a node that is not the lightest.
  Inserting 1, 2, 3, 4 and removing twice returns 1 and then 4, although a 2
  remains. The codes are still prefix-free, because any merge order gives a
  full binary tree, but they need not be optimal.
- **Padding decodes to extra symbols.** The zero bits that fill the last
  payload byte are walked like real bits. So decoding appends copies of the
  leftmost leaf's symbol: one per `LeftDepth(root)` padding bits, and never
  more than seven. "aaab" encodes to the codes a = 1 and b = 0, so the payload
  is the single byte 11100000. It decodes to "aaabbbbb".
- **A single distinct byte decodes to nothing.** With one distinct byte the
  root is a leaf with a code of length 0. The payload is then empty, and the
  decoded output is empty.

## Model

| member | source | states |
|---|---|---|
| `Trees.Child` | huffman.c:210 | the child followed on a bit exists exactly when the node is an inner node (leaves have two NULL children) |
| `Trees.LeftDepth` | huffman.c:207-213 | the all-left path is no longer than the tree is deep, and is empty exactly at a leaf |
| `Trees.LeftPath` | huffman.c:210 | the node k steps down the all-left path is LeftDepth - k above its own leftmost leaf, which is the tree's leftmost leaf |
| `Trees.LeftmostIsSymbol` | huffman.c:207-213 | the leaf reached by going left all the way is one of the tree's symbols |
| `Trees.SymbolCountOfShape` | huffman.c:105-115 | a leaf holds one symbol and a merged node holds at least two |
| `Trees.LeadsToLeaf` | huffman.c:57-72 | a path that ends at a leaf holding v means v is in the tree, and the path is no longer than the tree is deep |
| `Trees.DepthBelowLeafCount` | huffman.c:105-113 | a full binary tree with n leaves is less than n deep |
| `Trees.LeafPathsPrefixFree` | huffman.c:57-72 | a leaf path cannot be extended to another leaf path, and equal paths reach the same leaf |
| `Trees.ZerosLeadToLeftmost` | huffman.c:207-213 | LeftDepth(t) zero bits lead from the root to the leftmost leaf |
| `MinHeap.Parent` | huffman.c:31 | `(idx - 1) / 2` is the slot above idx, and idx is one of its two children 2p + 1 and 2p + 2, the slots heap_remove_min looks at |
| `MinHeap.SiftUp` | huffman.c:29-35 | the climb of heap_insert keeps the array length |
| `MinHeap.Inserted` | huffman.c:28-37 | heap_insert grows the occupied prefix by one slot |
| `MinHeap.SiftUpIgnoresHole` | huffman.c:28-36 | the slot the climb starts from is a hole: its old content does not affect the result |
| `MinHeap.SiftUpPermutes` | huffman.c:29-36 | the climb moves nodes around without losing or duplicating any |
| `MinHeap.InsertedPermutes` | huffman.c:28-37 | after heap_insert the heap holds the old nodes plus the inserted one, as a multiset |
| `MinHeap.SiftUpRestoresOrder` | huffman.c:29-36 | the climb turns an array that is ordered except around the hole into a heap-ordered one |
| `MinHeap.InsertedKeepsOrder` | huffman.c:28-37 | inserting into a heap-ordered array leaves it heap-ordered |
| `MinHeap.Smallest` | huffman.c:45-47 | the chosen slot is idx or one of its two children |
| `MinHeap.SiftDown` | huffman.c:43-52 | the sift-down loop followed by `array[idx] = last` keeps the array length |
| `MinHeap.RemovedMin` | huffman.c:40-54 | heap_remove_min shrinks the occupied prefix by one slot |
| `MinHeap.SiftDownPermutes` | huffman.c:43-52 | the sift-down moves nodes and places `last` without losing any |
| `MinHeap.RemovedMinPermutes` | huffman.c:40-54 | heap_remove_min takes out exactly the node it returns |
| `MinHeap.RootIsLightest` | huffman.c:41 | in a heap-ordered array slot 0 is no heavier than any slot |
| `MinHeap.RemovedMinOfOrdered` | huffman.c:40-54 | on an ordered heap the returned node is a lightest one, and `last` is dropped at the root without sinking, because the children are compared with the removed minimum |
| `MinHeap.RemovalBreaksOrder` | huffman.c:45-47 | inserting weights 1, 2, 3, 4 and removing twice returns 1 and then 4 while a 2 remains: heap order is not restored |
| `MinHeap.Heap.constructor` | huffman.c:94 | a new heap is empty |
| `MinHeap.Heap.Insert` | huffman.c:28-37 | the array and count become exactly `Inserted` of the old contents; the multiset gains the node; heap order is kept |
| `MinHeap.Heap.RemoveMin` | huffman.c:40-54 | the result and new contents are exactly `RemovedMin` of the old contents; the multiset loses the returned node; on an ordered heap it is a lightest node |
| `MinHeap.Heap.SiftDownLast` | huffman.c:43-53 | the loop on the array leaves the occupied slots equal to `SiftDown` of their old contents |
| `Frequency.Histogram` | huffman.c:89-91 | the table has one entry per byte value |
| `Frequency.OccurrencesPositive` | huffman.c:91 | a byte's count is nonzero exactly when the byte occurs in the input |
| `Frequency.SumIncrement` | huffman.c:91 | incrementing one counter raises the table's sum by one |
| `Frequency.HistogramSum` | huffman.c:89-91 | the counts add up to the input length |
| `Frequency.UsedSymbolsExactly` | huffman.c:95-96 | the used-symbol set holds each symbol with a nonzero frequency once, and nothing else |
| `Frequency.UsedSymbolsSize` | huffman.c:95-96 | there are at most i used symbols below i |
| `Frequency.CountFrequencies` | huffman.c:89-91 | the scan over a zeroed array yields the histogram; an entry is positive exactly for bytes that occur; the counts sum to the input length |
| `TreeBuild.LeafPhase` | huffman.c:95-103 | the leaf loop leaves at most i nodes after looking at i symbols |
| `TreeBuild.LeafPhaseSkipsZeros` | huffman.c:96 | symbols with zero frequency add nothing to the heap |
| `TreeBuild.MergeStep` | huffman.c:106-112 | one merge turn leaves one node fewer |
| `TreeBuild.Merge` | huffman.c:105-113 | the merge loop ends with one node when it starts with at least one, and with none otherwise |
| `TreeBuild.ForestPermutation` | huffman.c:105-113 | reordering the heap changes neither the symbols nor the total weight it holds |
| `TreeBuild.WellformedPermutation` | huffman.c:105-113 | a heap made of nodes of a well-formed heap is well formed |
| `TreeBuild.InsertedContents` | huffman.c:101 | inserting a node adds its symbols and its weight to the heap's |
| `TreeBuild.LeafPhaseContents` | huffman.c:95-103 | after the leaf loop the heap holds one leaf per used symbol, each carrying its frequency, of total weight the sum of the frequencies |
| `TreeBuild.RemovalContents` | huffman.c:106 | removing a node takes its symbols and weight out of the heap |
| `TreeBuild.MergeStepContents` | huffman.c:106-112 | a merge turn keeps the heap's symbols, its weight and its well-formedness |
| `TreeBuild.MergeContents` | huffman.c:105-113 | the merge loop keeps the symbols, the weight and well-formedness |
| `TreeBuild.HuffmanTreeExists` | huffman.c:115 | the root is NULL exactly when every frequency is zero |
| `TreeBuild.HuffmanTree` | huffman.c:94-115 | the root is NULL exactly when the leaf loop inserted nothing, and otherwise it is the single node the merge loop leaves in the heap |
| `TreeBuild.HuffmanTreeContents` | huffman.c:94-115 | the root's merged nodes weigh the sum of their children; its leaves are exactly the used symbols, each once with its frequency; it weighs the sum of all frequencies |
| `TreeBuild.HuffmanTreeDepth` | huffman.c:117-119 | the root is less than MAX_CODE_LEN deep, so the path buffer never overflows |
| `TreeBuild.InsertLeaves` | huffman.c:94-103 | a fresh heap ends up holding exactly `LeafPhase` of the table |
| `TreeBuild.MergeOnce` | huffman.c:106-112 | one turn on the heap object computes `MergeStep` of its contents |
| `TreeBuild.MergeAll` | huffman.c:105-113 | the loop on the heap object computes `Merge` of its contents |
| `TreeBuild.BuildTree` | huffman.c:181-202 | the root built on the heap object is `HuffmanTree(freq)`, and it is NULL exactly when all frequencies are zero |
| `CodeAssign.AssignCodes` | huffman.c:57-72 | assigning codes keeps a table of 256 entries |
| `CodeAssign.CodeTable` | huffman.c:117-119 | the code table has 256 entries |
| `CodeAssign.HuffmanCodes` | huffman.c:117-119 | the encoder's code table has 256 entries |
| `CodeAssign.AssignCodesPaths` | huffman.c:57-72 | each symbol below a node gets the path to the node followed by a path that leads from the node to its leaf |
| `CodeAssign.AssignCodesKeeps` | huffman.c:57-72 | entries of symbols outside the subtree are left unchanged |
| `CodeAssign.HuffmanCodesLead` | huffman.c:117-119 | a used symbol's code leads from the root to its own leaf; an unused symbol's code is empty |
| `CodeAssign.HuffmanCodesPrefixFree` | huffman.c:57-72 | no used symbol's code is a prefix of another's, and distinct used symbols have distinct codes |
| `CodeAssign.HuffmanCodesFit` | huffman.c:117-119 | every code is shorter than MAX_CODE_LEN |
| `CodeAssign.HuffmanCodesLength` | huffman.c:58-62 | with at most one used symbol every code is empty; with two or more, every used symbol gets at least one bit |
| `Packing.BitsValue` | huffman.c:145 | the value of n bits shifted in is below 2^n |
| `Packing.BitAt` | huffman.c:209 | `(ch >> i) & 1` is 0 whenever ch is below 2^i: no bit above the value's width is set |
| `Packing.ShiftLeft` | huffman.c:155 | `x << k` is x times 2^k, before `out_byte` truncates it to 8 bits |
| `Packing.Padding` | huffman.c:154-155 | the padding is below 8 and completes the bit count to a whole number of bytes |
| `Packing.PackBits` | huffman.c:140-157 | the payload has ceil(bits/8) bytes |
| `Packing.ByteBits` | huffman.c:207-208 | the decoder reads eight bits from each byte |
| `Packing.Unpacked` | huffman.c:206-208 | the decoder reads eight bits per payload byte |
| `Packing.UnpackedConcat` | huffman.c:206 | the payload is read byte after byte |
| `Packing.BitAtValue` | huffman.c:145-208 | bit i of a value built by shifting bits in is the bit shifted in i places before the end |
| `Packing.ByteBitsOfValue` | huffman.c:145-208 | reading a byte from bit 7 down returns the eight bits it was packed from |
| `Packing.BitsValueZeros` | huffman.c:155 | shifting left by k appends k zero bits |
| `Packing.PaddingSkipsByte` | huffman.c:154-155 | eight more bits leave the padding unchanged |
| `Packing.PackBitsConcat` | huffman.c:147-151 | a prefix of whole bytes is packed on its own |
| `Packing.UnpackPack` | huffman.c:140-208 | unpacking the payload gives back the code bits followed by exactly the padding's zero bits |
| `Packing.Pack` | huffman.c:140-157 | the packer loop, with its 8-bit `out_byte` arithmetic, writes exactly `PackBits` of the concatenated codes |
| `Packing.Encoded` | huffman.c:142-153 | the code bits are empty exactly when every symbol of the input has an empty code, and hold at least one bit per symbol when every code is nonempty |
| `Packing.ShiftStep` | huffman.c:145-151 | one bit shifted in keeps the written bytes and `out_byte` in step with the bits taken in, including the flush at 8 bits |
| `Packing.Flush` | huffman.c:154-157 | the last partial byte, shifted into place, completes the payload |
| `Packing.ShiftInBit` | huffman.c:145 | with fewer than 8 bits held, shifting one more bit into `out_byte` does not overflow the byte |
| `Packing.ByteComplete` | huffman.c:147-151 | a completed byte is written after the bytes before it |
| `Packing.PackLastByte` | huffman.c:154-157 | the shifted partial byte is the last byte of the payload |
| `Packing.LastByteValue` | huffman.c:155 | `out_byte <<= 8 - bits_used` on a byte gives the held bits followed by zeros |
| `Header.LittleEndian` | huffman.c:131-136 | an integer stored in n bytes takes n bytes |
| `Header.FromLittleEndian` | huffman.c:171-177 | the number `fread` stores from bytes laid out least significant first: its remainder modulo 256 is the first byte |
| `Header.FromLittleEndianBound` | huffman.c:171-177 | the number n bytes hold is below 256^n |
| `Header.IntValue` | huffman.c:171 | the `int` read back is in the signed 32-bit range, and negative exactly when the top bit of its last (most significant) byte is set |
| `Header.FromLittleEndianInt` | huffman.c:171 | four bytes read back as their weighted sum, the last byte most significant |
| `Header.LittleEndianRoundTrip` | huffman.c:131-177 | reading back n stored bytes gives the value when it fits in n bytes |
| `Header.HeaderRecords` | huffman.c:132-137 | there are at most i records below symbol i |
| `Header.RecordBytes` | huffman.c:134-136 | each record takes 9 bytes |
| `Header.RecordBytesConcat` | huffman.c:132-137 | records are written one after another |
| `Header.HeaderBytes` | huffman.c:128-137 | the header is the 4-byte count followed by whole 9-byte records, at most 4 + 9 * 256 bytes |
| `Header.WriteHeader` | huffman.c:128-137 | the two loops write exactly the count followed by the records' bytes |
| `Header.RecordBytesStep` | huffman.c:133-136 | one turn of the writing loop appends symbol i's record exactly when its frequency is nonzero |
| `Header.ReadRecords` | huffman.c:173-179 | reading records keeps a table of 256 entries |
| `Header.ReadRecordsRest` | huffman.c:173-179 | each turn of the reading loop consumes exactly one 9-byte record, so k turns leave the bytes after the first k records |
| `Header.ReadOneRecord` | huffman.c:173-179 | one turn of the reading loop stores the record at the current position and goes on after its 9 bytes |
| `Header.ParseHeader` | huffman.c:171-179 | the table read back has 256 entries, and the payload is the suffix of the file after the count, no longer than the file less 4 bytes |
| `Header.ReadHeader` | huffman.c:171-179 | the reading loop on a zeroed array computes `ParseHeader` |
| `Header.StoreSnoc` | huffman.c:178 | storing one more record overwrites that symbol's entry |
| `Header.StoreHeaderRecords` | huffman.c:132-179 | storing the written records into a zero table restores exactly the frequencies below i |
| `Header.ReadRecordBytes` | huffman.c:173-179 | reading back written records stores exactly those records and stops right after them |
| `Header.HeaderRecordsSound` | huffman.c:133-136 | every record's symbol is below i and carries that symbol's nonzero frequency |
| `Header.HeaderRecordsOrdered` | huffman.c:128-137 | the count is the number of used symbols, and the records list every used symbol once with its frequency in strictly ascending order |
| `Header.CountRoundTrip` | huffman.c:131-171 | the symbol count written as a 4-byte `int` reads back unchanged |
| `Header.StoreAllRecords` | huffman.c:132-179 | storing every written record into a zeroed table gives back the whole frequency table |
| `Header.HeaderRoundTrip` | huffman.c:128-179 | reading what was written gives the original table and leaves the following payload, when every frequency fits 8 bytes |
| `Decoder.WalkConcat` | huffman.c:205-216 | walking two runs of bits is walking the first and then the second |
| `Decoder.DecodePayload` | huffman.c:203-216 | the byte loop, with the NULL-dereference flag, computes `Decode` of the payload |
| `Decoder.DecodeByte` | huffman.c:208-215 | the bit loop over one byte, from bit 7 down to bit 0, continues the walk by exactly that byte's eight bits |
| `Decoder.Step` | huffman.c:209-214 | a step stops the walk exactly when it was stopped or `current` is NULL; otherwise it writes at most one symbol, which is a leaf of the current subtree, returning to the root when it does and moving to the child followed on the bit when it does not |
| `Decoder.Walk` | huffman.c:207-216 | once a NULL child has been dereferenced the walk stays stopped; a running walk only appends to the output, at most one symbol per bit |
| `Decoder.Decode` | huffman.c:205-216 | with a NULL root the decoder dereferences NULL exactly when the payload is not empty, and it never writes more than 8 symbols per payload byte |
| `Decoder.WalkStaysOnNodes` | huffman.c:209-213 | from an inner-node root `current` is always an inner node between bits, so no NULL is dereferenced |
| `Decoder.WalkPath` | huffman.c:209-213 | walking a leaf's path from the root writes that leaf's symbol and returns to the root |
| `Decoder.WalkShortZeros` | huffman.c:209-213 | fewer zero bits than LeftDepth write nothing and stop on the inner node that many steps down the all-left path |
| `Decoder.WalkZeros` | huffman.c:209-213 | k zero bits from the root write k / LeftDepth copies of the leftmost symbol |
| `Codec.EncodeSpec` | huffman.c:89-157 | `encoded.bin` holds at least the 4-byte count, and an empty input gives only a count of 0 |
| `Codec.DecodeSpec` | huffman.c:171-216 | a decoder that does not dereference NULL writes at most 8 symbols per byte after the count |
| `Codec.Compress` | huffman.c:89-157 | the encoder produces exactly the header followed by the packed codes of the input |
| `Codec.Decompress` | huffman.c:171-216 | the decoder produces exactly the walk over the payload with the tree rebuilt from the header |
| `Codec.HistogramFits` | huffman.c:89-91 | every count of an input shorter than 2^64 bytes fits an `unsigned long long` |
| `Codec.NodeHasTwoSymbols` | huffman.c:105-113 | a merged node has two leaves, so two symbols or one symbol twice |
| `Codec.RootShape` | huffman.c:105-115 | the root is an inner node exactly when the input holds two different bytes, and NULL exactly when the input is empty |
| `Codec.WalkEncoded` | huffman.c:142-216 | walking the codes of a run of symbols writes those symbols and ends at the root |
| `Codec.DecoderRebuildsTree` | huffman.c:128-202 | the decoder reads back the encoder's table, rebuilds the same tree and walks the encoder's payload |
| `Codec.DecodePacked` | huffman.c:140-216 | decoding the packed codes writes the input and then walks the padding bits |
| `Codec.RoundTripTwoSymbols` | huffman.c:82-222 | with two or more distinct bytes the decoder never dereferences NULL and writes the input followed by padding / LeftDepth (fewer than 8) copies of the leftmost symbol |
| `Codec.PaddingSymbols` | huffman.c:154-213 | the padding decodes to fewer than 8 extra symbols |
| `Codec.RoundTripOneSymbol` | huffman.c:142-157 | with at most one distinct byte the payload is empty and decoding writes nothing |
| `Codec.ExampleFrequencies` | huffman.c:89-91 | "aaab" counts a three times and b once |
| `Codec.ExampleTree` | huffman.c:94-115 | the tree for "aaab" is a node with b on the left and a on the right |
| `Codec.ExampleBits` | huffman.c:57-153 | "aaab" gets the codes a = 1 and b = 0 and encodes to the bits 1110 |
| `Codec.ExamplePayload` | huffman.c:140-157 | the payload of "aaab" is the single byte 0xE0 |
| `Codec.PaddingExample` | huffman.c:82-222 | "aaab" decodes to "aaabbbbb" |

## Left out

- File I/O, `rewind`, `fclose` and the exit codes 1, 2 and 3 for files that
  cannot be opened. The model takes the input as a byte sequence and produces
  the container as a byte sequence.
- `malloc` failures, `free_tree` and every other memory management. Tree nodes
  are values, so pointer aliasing is not modelled. No node is changed after it
  is built, so nothing depends on aliasing.
- The native widths are fixed: `int` as 4 bytes and `unsigned long long` as 8
  bytes, both little-endian.
- Frequency.CountFrequencies: counts are unbounded. The wrap-around of an
  `unsigned long long` counter after 2^64 occurrences is not modelled. The
  round-trip lemmas require inputs shorter than 2^64 bytes, so no count wraps.
- TreeBuild.HuffmanTreeContents: the merged weight `a->count + b->count` is
  unbounded. A 64-bit overflow of a merged node's weight is not modelled. The
  encoder never meets one for an input shorter than 2^64 bytes. The decoder can
  meet one when it reads a crafted header whose frequencies sum to 2^64 or
  more. There the wrapped weights change the merge order, so the tree the
  source rebuilds, and what `Codec.Decompress` writes, can differ from the
  model's. The symbols in the tree are the same either way.
- Header.WriteHeader: a frequency is stored modulo 2^64 (`LittleEndian`
  keeps the low 8 bytes), as `fwrite` of an `unsigned long long` does. The
  header round trip is stated only for frequencies below 2^64.
- Header.ReadHeader: short reads are not modelled. A header shorter than its
  count announces is excluded by `HeaderFits`. On such a file the source goes on
  with whatever `fread` left in `c` and `f`.
- Optimality of the code lengths is not claimed. The sift-down defect means
  the merge order need not be the lightest-first order.
- The code table stores the characters '0' and '1'. The model stores the bits
  0 and 1, which is what the packer uses after subtracting '0'.
- A NULL `current` is dereferenced when the root is NULL or a leaf and the
  payload is not empty. This is modelled as the `Crashed` outcome, and the
  model's walk ignores every later bit. The source's behaviour there is
  undefined.
- `(ch >> i) & 1` is modelled as i halvings followed by `% 2`.
