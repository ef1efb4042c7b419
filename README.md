# Pixel-data compression engine, modelled in Dafny

This project models the compression core of a face-obscuring image and video tool. The core lives in `compression_utils.py`:

- **run-length encoding** of a flattened image (`rle_compress`);
- **Huffman coding**:
  - the frequency count (`Counter`);
  - the min-heap tree build (`HuffmanNode`, `build_huffman_tree`);
  - the recursive code assignment (`build_codes` / `_generate_codes`);
  - bit concatenation, padding, an 8-bit padding header and packing into bytes (`huffman_compress`);
- **size and ratio accounting** (`calculate_compression_ratio`).

An image is its flattened sequence of uint8 values (`Pixels.Byte`). Its shape is that sequence's length.

Modules follow the steps of the pipeline:

| module | file | what it holds |
|---|---|---|
| `Wrappers`, `Pixels` | `common.dfy` | Option/Result, the byte type |
| `RunLength` | `run_length.dfy` | the run-length encoder as a loop, proved against the decoder `Expand` |
| `Frequency` | `frequency.dfy` | `Counter(flat)` as a map, and table sums |
| `HuffmanTree` | `huffman_tree.dfy` | tree nodes as values, the heap as a sequence, `heappop`, the merge loop |
| `HuffmanCodes` | `huffman_codes.dfy` | the code walk as a class with a `codes` map field, the prefix property, encoding and the decoding round trip |
| `BitPacking` | `bit_packing.dfy` | `"{0:08b}"`, `int(s, 2)`, the padding rule, unpacking |
| `HuffmanCompression` | `huffman_compression.dfy` | `huffman_compress` and its packing loop, with the full round trip |
| `SizeRatio` | `size_ratio.dfy` | the size rule per representation, and the ratio |

Several behaviours of `compression_utils.py` that a reader might not expect are modelled as the code does:

- **Single-symbol image.** When the image holds a single distinct value, the Huffman root is a leaf. `_generate_codes` then records the empty code for it; it is not special-cased to `"0"`. The code bits are empty and the block is `[8, 0]`. Decoding still recovers the image, because the shape gives the symbol count.
- **Empty image in `huffman_compress`.** Nothing fails: the table is empty and the buffer is `[8, 0]`. Only `rle_compress` fails on an empty image; it reads `flat[0]` first, which is `RunLength.RleError.EmptyImage`.
- **Byte-aligned code bits.** The padding is 8, not 0, when the code bits are already a multiple of 8 long. The buffer therefore always has `1 + n // 8 + 1` bytes for `n` code bits.
- **Zero-size original.** The ratio divides by the original size without a guard (see Findings).

## Model

| member | source | states |
|---|---|---|
| RunLength.RleCompress | compression_utils.py:8-21 | An empty image is an error. Otherwise the emitted pairs expand back to exactly the stream, they are maximal runs (positive counts, neighbouring runs differ), and the counts add up to the pixel count |
| RunLength.SumCountsIsLength | compression_utils.py:12-20 | The counts of any run list add up to the length of the stream it stands for |
| RunLength.MaximalRunsUnique | compression_utils.py:13-20 | Two maximal run lists for the same stream are equal, so the encoder's output is determined by its input |
| RunLength.RunCountBound | compression_utils.py:13-20 | A maximal run list has at most one run per pixel, and exactly one per pixel if and only if no two neighbouring pixels are equal (the worst case of the encoder) |
| Frequency.Frequencies | compression_utils.py:62 | The table holds exactly the values that occur in the image, each with a positive count |
| Frequency.FrequenciesTotal | compression_utils.py:62 | The counts of the table add up to the number of pixels |
| Frequency.TableSumRemove | compression_utils.py:62 | Removing one symbol from a table lowers its total by that symbol's count |
| HuffmanTree.Tree.Less | compression_utils.py:32-33 | Node order for the heap is `__lt__`: one node is less than another exactly when its frequency is smaller; symbols and shape play no part, so equal frequencies are unordered |
| HuffmanTree.MinimumExists | compression_utils.py:32-33 | Every non-empty heap holds a node that no other node is less than under `__lt__` (frequency order) |
| HuffmanTree.PopMin | compression_utils.py:40-41 | `heappop` returns an element of the heap that no element is less than, and the rest of the heap is everything else |
| HuffmanTree.AddLeaf | compression_utils.py:36 | Making a leaf for one more table entry keeps these in step with the table: the leaf count, symbol multiset, total frequency, the absence of internal nodes, and the consistency of every node |
| HuffmanTree.LeafHeap | compression_utils.py:36-37 | The initial heap has one consistent leaf per table entry, with the table's symbols and total frequency, and no internal node |
| HuffmanTree.MergeStep | compression_utils.py:40-45 | One iteration shrinks the heap by one. It pushes a new internal node whose children are the two popped nodes: a minimum of the heap and a minimum of what was left. Its frequency is their sum. The rest of the heap plus the two children is exactly the old heap, as a multiset. Total frequency and symbols are preserved, and the internal-node count grows by one |
| HuffmanTree.PopTwice | compression_utils.py:40-41 | Two pops remove exactly the two popped trees: what is left, plus those two, is the old heap as a multiset |
| HuffmanTree.MergeKeepsHeapOver | compression_utils.py:42-45 | The merged node is consistent (its frequency is its children's sum) when its children are, so the heap stays made of consistent trees over the table |
| HuffmanTree.SingleTree | compression_utils.py:47 | A one-element heap's totals are those of its only tree |
| HuffmanTree.BuildHuffmanTree | compression_utils.py:35-47 | No root if and only if the table is empty. Otherwise the root is consistent, and its leaves are exactly the table's symbols, each once, with their counts. Its frequency is the table total, and it has one internal node fewer than there are symbols |
| HuffmanCodes.PathCodesDomain | compression_utils.py:51-56 | The walk records a code for exactly the symbols of the tree |
| HuffmanCodes.PathCodesExtend | compression_utils.py:55-56 | Every recorded code extends the path walked so far, and strictly so below an internal node |
| HuffmanCodes.PathCodesPrefixFree | compression_utils.py:51-56 | The recorded codes are prefix-free: no symbol's code is a prefix of another symbol's code |
| HuffmanCodes.CodeBuilder.constructor | compression_utils.py:50 | The shared dictionary starts empty |
| HuffmanCodes.CodeBuilder.Generate | compression_utils.py:51-56 | The recursive walk adds to the shared dictionary exactly the leaf-path codes of the subtree, appending "0" to the left and "1" to the right, and changes nothing else |
| HuffmanCodes.BuildCodes | compression_utils.py:49-58 | The table is empty for no root. Otherwise it covers exactly the tree's symbols and is prefix-free; a leaf root gets the empty code, and every code is non-empty under an internal root |
| HuffmanCodes.EncodeAppend | compression_utils.py:66 | Encoding one more pixel appends that pixel's code |
| HuffmanCodes.MatchUnique | compression_utils.py:66 | In a prefix-free table at most one code begins a bit string, so decoding has no choice to make |
| HuffmanCodes.DecodeEncode | compression_utils.py:66 | With a prefix-free table that covers the image, reading the concatenated codes back symbol by symbol gives the image, including the single-symbol case with the empty code |
| BitPacking.ToBinary | compression_utils.py:71 | The binary text is exactly `width` digits long |
| BitPacking.BinaryValue | compression_utils.py:77 | `int(byte, 2)`: the value of a string of binary digits, most significant first, always below 2 to the power of its length |
| BitPacking.BinaryValueBound | compression_utils.py:77 | Eight binary digits always denote a value below 256, so `bytearray.append` never rejects it |
| BitPacking.BinaryValueOfBinary | compression_utils.py:71-77 | Reading the 8-bit header text back with base 2 gives the padding count |
| BitPacking.BinaryOfBinaryValue | compression_utils.py:75-77 | Writing the value of an 8-digit chunk back out in binary gives the chunk, so packing loses no bits |
| BitPacking.Padding | compression_utils.py:68 | The padding lies in 1..8 and makes the padded length a multiple of 8. It is 8 exactly when the code bits are already byte-aligned, and the padded length is the next multiple of 8 strictly above the bit count |
| BitPacking.Zeros | compression_utils.py:69 | The appended filler is `n` zero bits |
| HuffmanCompression.ConcatCodes | compression_utils.py:66 | The loop's concatenation equals the encoding of the image under the table |
| HuffmanCompression.PackBytes | compression_utils.py:74-77 | The packing loop gives one byte per 8 bits, and the bytes' bits, most significant first, are the input bits |
| HuffmanCompression.UnpackPacked | compression_utils.py:68-77 | A buffer whose bits are the header, the code bits and the padding zeros starts with the padding count, and unpacks to the code bits |
| HuffmanCompression.PackCodeBits | compression_utils.py:68-77 | The padding is the padding rule's value, and the buffer has `1 + n // 8 + 1` bytes. The first byte is the padding count, the buffer's bits are header, code bits and zeros, and unpacking gives the code bits back |
| HuffmanCompression.CodeTableOfImage | compression_utils.py:62-64 | The table built from the image's counts covers exactly the image's values and is prefix-free. An image of one repeated value gets the single empty code, and an image of two or more distinct values gets only non-empty codes |
| HuffmanCompression.SingleValueCode | compression_utils.py:53-54 | An image of one repeated value yields a leaf root, whose code is empty |
| HuffmanCompression.DistinctValuesCodes | compression_utils.py:55-56 | An image with two distinct values yields an internal root, so every code is non-empty |
| HuffmanCompression.DecompressBlock | compression_utils.py:80-85 | A block whose buffer unpacks to the encoding of the image under a prefix-free covering table decodes back to the image |
| HuffmanCompression.HuffmanCompress | compression_utils.py:60-85 | The shape is the pixel count, and the code table covers exactly the image's values and is prefix-free (empty code for a single value, non-empty codes otherwise). The padding follows the rule, and the buffer has `1 + n // 8 + 1` bytes headed by the padding count. Its bits are header, code bits and zeros; unpacking and decoding the block give the image back |
| SizeRatio.OriginalSize | compression_utils.py:88 | The original's size is `nbytes` (element count times item size) for an array, and the pickled length for anything else |
| SizeRatio.CompressedSize | compression_utils.py:90-97 | The compressed size is the length of a byte string, two bytes per entry of a list, the packed bytes plus the encoded length of the code table's text for a dict holding "compressed_data", and the pickled length for anything else |
| SizeRatio.CalculateCompressionRatio | compression_utils.py:87-101 | An error (division by zero) if and only if the original size is 0. Otherwise the ratio r satisfies r·original = 100·(original − compressed), it is below 100 if and only if the compressed size is positive, and non-negative if and only if the compressed form is no larger |
| SizeRatio.EmptyImageRatio | compression_utils.py:100 | For an empty uint8 image the ratio is a division-by-zero error, while the guarded ratio is 0 |
| SizeRatio.GuardedCompressionRatio | compression_utils.py:100 | Corrected ratio: 0 for an original of size 0, the source's ratio otherwise, and below 100 if and only if the original is empty or the compressed size is positive |
| SizeRatio.RunListRatio | compression_utils.py:93-100 | Two bytes per run against n bytes with at most n runs gives a ratio of at least -100, with -100 exactly when there are n runs |
| SizeRatio.RleRatioBound | compression_utils.py:93-100 | For a non-empty uint8 image and its run-length output the ratio is defined and at least -100, and it is exactly -100 if and only if no two neighbouring pixels are equal |

## Left out

- `heapq` order and ties: the heap is a sequence, and `heappop` may return any element that nothing is less than. `heapify` and the heap array layout are not modelled. Which of two equal-frequency nodes is popped first (the list order `heapq` happens to produce) is not modelled, so the exact tree and codes are not determined; every property above holds for every such choice.
- `HuffmanNode` mutability: `left` and `right` are set once, right after creation, and never again. Nodes are therefore immutable values, and aliasing between nodes is not modelled.
- `Counter` iteration order: the initial heap is built in an unspecified order of the table.
- Serialised sizes are inputs of the model: `len(pickle.dumps(...))` and `len(str(codes).encode())` (the `codesTextLength` parameter). The pickle format and Python's dict text are not modelled.
- SizeRatio.CalculateCompressionRatio: the ratio is an exact `real`, not a double; floating-point rounding is not modelled.
- `image.flatten()` and `image.shape`: the image is its flattened sequence of uint8 values, and the shape is its length; multi-dimensional shapes and other dtypes (`nbytes` with other item sizes is covered by `Original.NdArray`) are not.
- Decoders: `Expand`, `Unpack`, `DecodeSymbols` and `HuffmanDecompress` exist only in the model, to state the round trips. The source has no decompressor.
- The unused imports (`cv2`, `zlib`) have no effect on the core.
- `app.py`, `face_utils.py` and `recognition/` (face detection, UI, file and video I/O, sizes in KB for display) are not part of this model.

## Findings

| source | as written | input that shows it | evidently intended | confidence | as-written member | corrected member |
|---|---|---|---|---|---|---|
| compression_utils.py:100 | divides by the original size with no guard, so an original of 0 bytes raises ZeroDivisionError | an empty uint8 image (`nbytes == 0`) with any compressed form | a ratio of 0 for an empty original, as the video summary does with its guard at app.py:128 | medium, not executed | SizeRatio.EmptyImageRatio | SizeRatio.GuardedCompressionRatio |
