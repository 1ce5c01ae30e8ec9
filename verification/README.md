# Static Huffman codec, modelled in Dafny

This project models the static Huffman text codec of `Huffman.py` as pure
Dafny functions and proves properties of each stage and of the whole
pipeline. Compression runs these stages in order:

1. **Frequency counting** (`Frequency.MakeFrequencyDic`). The text becomes an
   insertion-ordered dictionary from symbol to count.
2. **Heap building** (`HuffmanTree.BuildHeap`). Each key becomes one leaf in
   the priority queue.
3. **Tree building** (`HuffmanTree.BuildTree`). The two least-frequent nodes
   are merged repeatedly until one node is left.
4. **Code derivation** (`Codes.BuildCodesHelper`, `Codes.BuildCodes`). A walk
   down the tree, 0 for left and 1 for right, gives the symbol-to-code table
   and its reverse.
5. **Encoding** (`Codec.GetEncodedText`). The codes of the characters are
   joined.
6. **Padding** (`Packing.GetPaddedText`). An 8-bit header holding the pad
   amount goes first; the pad amount of zero bits goes last.
7. **Packing** (`Packing.GetBytesArray`). The bits are cut into 8-bit groups,
   and each group becomes a byte.

Decompression (`Huffman.Decompress`) turns the bytes back into bits
(`Packing.BytesToBits`). It strips the header and the padding
(`Packing.RemovePadding`). It then decodes greedily with the reverse table
(`Codec.DecodeFrom`). In the source, the reverse table lives in the codec
object and is never written to the file. Here compression returns it, and
decompression takes it as a parameter.

Representation choices:
- A bit is a `bool`: `false` is `'0'` and `true` is `'1'`.
- A byte is `Byte`, an `int` in 0..255.
- A symbol is a `char`, and a text is a `string`.
- The tree is `Tree = Leaf(sym, freq) | Node(left, right, freq)`.
- The Python exceptions become `Result` failures. Popping the root of an
  empty heap is `EmptyHeap`. A missing dictionary key during encoding is
  `MissingCode`. `int('', 2)` on an empty byte stream is `EmptyHeader`.

The priority queue is a sequence kept in insertion order. A pop takes the
earliest node of least frequency (`HuffmanTree.MinIndex`). So ties are broken
by (frequency, insertion order). `BinaryTreeNode.__lt__` compares frequencies
only, so the source leaves the tie order to `heapq`. For that reason, the
queue invariants (`HuffmanTree.MergeStepPreserves`) are proved for any two
positions a merge step might pop, not only for the ones this tie rule picks.

The code table for a single-leaf root is modelled both ways. The source gives
such a root the empty code. The repaired table (`Codes.BuildCodesFixed`)
gives it the one-bit code 0 instead (see Findings). `Huffman.CompressWith`
takes a flag that selects the table. `Huffman.Compress` uses the repaired
one, and `Huffman.CompressAsWritten` uses the source's.

Three behaviours of `Huffman.py` that a reader might expect otherwise are
modelled as the code has them:
- Bits left over at the end of decoding that match no code are dropped
  silently (Huffman.py:143-150). No error is reported
  (`Codec.UnmatchedTailDropped`).
- An empty text leaves the heap empty, so `heapq.heappop` at Huffman.py:64
  raises, and no file contents are produced (`Huffman.CompressWith` fails
  with `EmptyHeap`).
- The pad amount at Huffman.py:75 is `8 - len % 8`, which is a full 8 when
  the encoded length is already a multiple of 8. The packing loop at
  Huffman.py:85-92 then emits `len / 8 + 2` bytes (`Packing.PackedByteCount`),
  one more than `ceil((8 + len) / 8)` in that case.

## Model

| member | source | states |
|---|---|---|
| Frequency.MakeFrequencyDic | Huffman.py:25-32 | The keys are exactly the symbols occurring in the text, each listed once. Each count equals the symbol's number of occurrences. An empty text gives an empty dictionary. |
| Frequency.OrderIsFirstOccurrence | Huffman.py:27-29 | The keys are listed in order of first occurrence: for any two keys, some prefix of the text holds the earlier one but not the later one. |
| Frequency.CountsSumToLength | Huffman.py:25-32 | The counts of the dictionary add up to the length of the text. |
| HuffmanTree.BuildHeap | Huffman.py:34-38 | One leaf per key, in key order, each carrying its key's count. The queue's leaf symbols are the keys, and its total frequency is the sum of the counts. |
| HuffmanTree.MinIndex | Huffman.py:11-12 | The popped position holds a node of least frequency, and no earlier node has that frequency. |
| HuffmanTree.RemoveAt | Huffman.py:42-43 | Popping a node shrinks the queue by one and removes exactly that node's frequency and leaf symbols. |
| HuffmanTree.MergeStepPreserves | Huffman.py:42-48 | For any two popped nodes, pushing their parent keeps the queue's total frequency and leaf symbols, and keeps every node well formed (each parent's frequency is the sum of its children's). |
| HuffmanTree.MergeStep | Huffman.py:42-48 | One turn of the merge loop, for any two popped positions, shrinks the queue by one. What it keeps is stated by `HuffmanTree.MergeStepPreserves`. |
| HuffmanTree.BuildTree | Huffman.py:40-49 | The loop ends with exactly one node when it started with any, and none otherwise. It keeps the total frequency, the leaf symbols and well-formedness. |
| HuffmanTree.TreeOf | Huffman.py:34-49 | Building the heap from the frequency dictionary and running the merge loop leaves exactly one node for a non-empty text, and none for the empty text. |
| HuffmanTree.TreeOfText | Huffman.py:34-49 | For a non-empty text, the root is well formed and its frequency is the text's length. Its leaves are exactly the distinct symbols of the text, one leaf each. |
| HuffmanTree.NodeHasTwoSymbols | Huffman.py:41 | An internal root with distinct leaves carries at least two different symbols, so the merge loop runs only for two or more symbols. |
| Codes.BuildCodesHelper | Huffman.py:51-61 | The codes table gets an entry for exactly the leaf symbols of the subtree walked. |
| Codes.BuildCodes | Huffman.py:63-65 | Walking the root from the empty path gives a code to every leaf symbol and to nothing else. |
| Codes.HelperCodes | Huffman.py:55-61 | Each recorded code is the accumulated bits followed by the path from the subtree to a leaf carrying that symbol. |
| Codes.HelperReverse | Huffman.py:55-61 | Each reverse-table entry is the accumulated bits followed by a path to a leaf carrying the entry's symbol. |
| Codes.HelperComplete | Huffman.py:55-61 | Every root-to-leaf path of the subtree is recorded in the reverse table. |
| Codes.CodesArePaths | Huffman.py:51-65 | Every leaf symbol gets its root-to-leaf path as its code, and the reverse table holds exactly those paths. Below an internal root, every code is non-empty. |
| Codes.CodesMutualInverse | Huffman.py:55-57 | With distinct leaves, the codes table and the reverse table are inverse to each other in both directions. |
| Codes.CodesPrefixFree | Huffman.py:51-61 | No code in the reverse table is a proper prefix of another. |
| Codes.FollowInjective | Huffman.py:55-57 | With distinct leaves, two paths that reach the same symbol are the same path. |
| Codes.BuildCodesValid | Huffman.py:63-65 | An internal root with distinct leaves yields non-empty, mutually inverse, prefix-free tables. |
| Codes.LeafRootGetsEmptyCode | Huffman.py:55-57 | A root that is a single leaf gets the empty code in both tables. |
| Codes.BuildCodesFixed | Huffman.py:63-65 | Repaired derivation: the same keys as the walk, and the walk's own tables whenever the root is internal. |
| Codes.BuildCodesFixedValid | Huffman.py:63-65 | The repaired tables are non-empty, mutually inverse and prefix-free for every tree with distinct leaves, including a single leaf. |
| Codec.GetEncodedText | Huffman.py:67-72 | Encoding succeeds exactly when every character has a code, and then yields the joined codes. Otherwise it fails on the first character without a code. |
| Codec.EncodeAppend | Huffman.py:69-70 | Each turn of the loop appends the code of the next character. |
| Codec.EncodedLength | Huffman.py:67-72 | The encoded length is the sum of the code lengths of the characters. |
| Codec.DecodeFrom | Huffman.py:140-150 | Decoding emits at most one symbol per bit, and each symbol it emits is a value of the reverse table. |
| Codec.DecodeText | Huffman.py:140-150 | Decoding from an empty buffer emits at most one symbol per bit, each a value of the reverse table. |
| Codec.DecodeOneCode | Huffman.py:143-148 | With prefix-free keys, the decoder reads one whole code, emits its symbol and empties the buffer. It never stops early at a shorter key. |
| Codec.DecodeAfterEncode | Huffman.py:140-150 | Decoding an encoded text followed by more bits gives the text, then whatever the extra bits decode to. |
| Codec.DecodeRoundTrip | Huffman.py:140-150 | Greedy decoding with valid tables inverts encoding. |
| Codec.UnmatchedTailDropped | Huffman.py:143-150 | Trailing bits that never complete a code are dropped silently. The result is the text decoded without them. |
| Packing.PadAmount | Huffman.py:75 | The pad amount is in 1..8 and brings the length to a multiple of 8. It is 8 exactly when the length already is a multiple of 8. |
| Packing.Header | Huffman.py:79 | The 8-bit header reads back as the pad amount it records. |
| Packing.GetPaddedText | Huffman.py:74-83 | The padded length is 8 + len + pad, a multiple of 8. The first 8 bits read back as the pad amount. The encoded bits follow unchanged, and the padding bits are all zero. |
| Packing.DropLast | Huffman.py:137 | Python's `s[:-k]` is a prefix of `s` that is `k` shorter. It is empty when `k` is 0 or at least the length. |
| Packing.RemovePadding | Huffman.py:132-138 | Unpadding fails only on an empty bit string, which has no header. Otherwise the result is a prefix of the bits after the header. |
| Packing.UnpadAfterPad | Huffman.py:132-138 | Removing the padding undoes adding it. |
| Packing.GetBytesArray | Huffman.py:85-92 | One byte per group of 8 bits, the last group possibly shorter. |
| Packing.PackedByteCount | Huffman.py:85-92 | A padded encoding packs into `len / 8 + 2` bytes. |
| Packing.BytesToBits | Huffman.py:157-163 | Each byte expands to 8 bits, so the bit string is 8 times as long as the byte sequence. |
| Packing.BitsBytesRoundTrip | Huffman.py:159-163 | Expanding the packed bytes of a bit string whose length is a multiple of 8 gives the bits back exactly. |
| Packing.BytesBitsRoundTrip | Huffman.py:85-92 | Packing the expansion of any byte sequence gives the bytes back. |
| Bits.FromBits | Huffman.py:90 | A group of n bits reads as a value below 2^n, so a group of at most 8 bits fits in a byte. |
| Bits.FromToBits | Huffman.py:79 | Rendering a value in w bits MSB-first and reading it back gives the value. |
| Bits.ToFromBits | Huffman.py:161 | Reading a bit string and rendering it at its own width gives it back. |
| Huffman.Pack | Huffman.py:119-123 | The padded encoding packs into `len / 8 + 2` bytes, and the first byte is the pad amount. |
| Huffman.EncodeAndPack | Huffman.py:116-123 | Encoding and packing fails exactly when some character has no code, with a missing-code error. Otherwise the first byte is in 1..8 and at least one more byte follows. |
| Huffman.EncodeAndPackSucceeds | Huffman.py:116-123 | When every character has a code, encoding and packing yields the packed, padded encoding and the given reverse table. |
| Huffman.CompressWith | Huffman.py:103-123 | Compression fails (empty heap) exactly on the empty text. Otherwise the first output byte is in 1..8, and at least one more byte follows. The exact first byte, the pad amount, follows from `Huffman.CompressSucceeds` and `Huffman.Pack`. |
| Huffman.Compress | Huffman.py:94-125 | Compression with the repaired tables succeeds exactly on non-empty texts, and otherwise fails with the empty-heap error. |
| Huffman.CompressAsWritten | Huffman.py:94-125 | Compression with the source's own tables also succeeds exactly on non-empty texts, and otherwise fails with the empty-heap error. |
| Huffman.CompressSucceeds | Huffman.py:105-117 | For a non-empty text, every character has a code, and compression produces the packed, padded encoding plus the reverse table. |
| Huffman.Decompress | Huffman.py:153-166 | Decompression fails only on an empty stream. It never yields more symbols than the stream has bits. |
| Huffman.RoundTrip | Huffman.py:103-165 | With the repaired tables, decompressing the compression of any non-empty text gives the text back. |
| Huffman.PipelineRoundTrip | Huffman.py:117-165 | For decodable tables covering every character, packing the padded encoding, then expanding, unpadding and decoding it, gives the text back. |
| Huffman.AsWrittenRoundTrip | Huffman.py:114-165 | With at least two distinct symbols, the source's tables equal the repaired ones, and the source's round trip is exact. |
| Huffman.RootOfOneSymbol | Huffman.py:41 | A text of one repeated symbol leaves the merge loop unrun, so the root is a single leaf carrying that symbol. |
| Huffman.AsWrittenLosesOneSymbolText | Huffman.py:55-57 | For a text of one repeated symbol, the source writes the bytes [8, 0], and decompressing them gives the empty text. |
| Huffman.EmptyEncodingPacksToHeader | Huffman.py:74-92 | An empty encoding packs to the header byte 8 followed by one zero byte. |

## Left out

- File I/O is not modelled: opening files, `os.path.splitext`, output path naming and writing the result. The model's inputs and outputs are the text, the byte sequence and the reverse table.
- `text.rstrip()` is not modelled. Compression takes the already-stripped text.
- The `print` call and the top-level script with its hard-coded path are not modelled.
- `heapq`'s sift-up and sift-down mechanics are not modelled. The queue is a sequence with a min-pop. The tie order among equal frequencies is fixed here as (frequency, insertion order). `heapq`'s own tie order depends on its array layout and is not reproduced. The queue invariants are proved for any choice of popped nodes.
- `BinaryTreeNode.__eq__` is not modelled; the algorithm never uses it.
- Reusing one `HuffmanCoding` object across several compressions is not modelled. Each compression starts from fresh tables.
- The `root is None` branch of `__buildCodesHelper` is not modelled. The tree datatype gives every internal node two children, so the branch is unreachable.
- Huffman optimality is not stated or proved. This includes the relation "a less frequent symbol never has a shorter code". The source does not check or rely on it.
- Codec.GetEncodedText: the encoded length is stated as the sum of code lengths per character (`Codec.EncodedLength`), not as the frequency-weighted sum over the dictionary.
- Packing.GetBytesArray: its contract states only the byte count. The values are pinned down by the two round-trip lemmas (`Packing.BitsBytesRoundTrip`, `Packing.BytesBitsRoundTrip`), not by a clause on each byte.

## Findings

| source | as written | input that shows it | evidently intended | confidence | as-written member | corrected member |
|---|---|---|---|---|---|---|
| Huffman.py:55-57 | A root that is a single leaf (a text of one distinct symbol) gets the empty code `""`. The encoded text is empty, the file is the two bytes `[8, 0]`, and decompression returns an empty text. | `"aa"` | Every non-empty text decompresses to itself. A single-leaf root needs a non-empty code, such as one bit 0. | high; not executed | Huffman.AsWrittenLosesOneSymbolText | Huffman.RoundTrip |
