# Huffman image codec, modelled in Dafny

This project models the Huffman codec in `Huffman_RSA_Fernet.py`, from
ShivenAgarwal/Compression-and-Encryption. The codec compresses the pixel
intensities of a flattened image (values 0 to 255) into a bit string and
reconstructs them.

The model covers the following parts of the script.

- **`HeapNode`** is a tree node ordered by frequency alone.
- **`HuffmanCoding`** holds three pieces of state:
  - the heap of nodes;
  - the forward code table `codes`;
  - the reverse table `reverse_mapping`.
- **The compression path** has these steps:
  - `make_frequency_dict` counts each value;
  - `make_heap` pushes one leaf per value;
  - `merge_nodes` repeatedly merges the two least frequent nodes;
  - `make_codes` and `make_codes_helper` label every root-to-leaf path, "0" going left and "1" going right;
  - `encode_arr` concatenates the codes;
  - `compress` chains these steps.
- **The decompression path** has two steps:
  - `decode_arr` matches greedy prefixes against the reverse table;
  - `decompress` calls it.
- **The top-level script** aligns and unpacks the stream:
  - it computes the padding count `str_pad`;
  - it packs the bit string big-endian into `(L + 7) // 8` bytes;
  - it reads the bytes back as bits;
  - it strips `str_pad` bits;
  - it decompresses.

Bits are `bool`: `false` is the character '0' and `true` is '1'. A pixel value
is a `Symbol`, an integer from 0 to 255.

The files, in dependency order:

| file | module | contents |
|---|---|---|
| `outcomes.dfy` | `Outcomes` | `Option`, `Result` and the error cases the script can raise |
| `tree.dfy` | `HuffmanTree` | `HeapNode` as the datatype `Tree`; leaves, frequencies, root-to-leaf paths |
| `heap.dfy` | `HeapModel` | the heap as a sequence: removal, total frequency, leaves, least element |
| `frequency.dfy` | `Frequency` | the frequency dict with its insertion order; the leaves `make_heap` pushes |
| `codes.dfy` | `CodeTable` | the tables `make_codes_helper` writes, as functions of the tree, and what they are |
| `bitstream.dfy` | `Bitstream` | the encoded stream and the greedy decoder; the round trip |
| `packing.dfy` | `Packing` | `int(s, 2)`, `to_bytes`, `BitArray(...).bin`, `str_pad`, slicing |
| `facts.dfy` | `CodecFacts` | what `compress` builds from an input, and the whole pipeline |
| `huffman_coding.dfy` | `Huffman` | the `HuffmanCoding` class with its methods, and the script as `RunScript` |

The class is imperative, as in the source:
- Its fields are reassigned by methods with `modifies this`.
- The loops of `make_frequency_dict`, `make_heap`, `merge_nodes`, `encode_arr` and `decode_arr` are `while` loops with invariants.
- `make_codes_helper` is a recursive method.

Each method is proved against pure functions that state what it computes:
- `Leaves` for the heap it builds;
- `CodesOf` and `ReverseOf` for the tables;
- `EncodeSeq` for the encoding;
- `DecodeFrom` and `Decode` for the decoder.

The lemmas then prove what those functions mean:
- every round of merge_nodes merges two least nodes;
- the tables are the tree's root-to-leaf paths;
- the tables are inverse to each other and prefix-free;
- decoding the encoding gives the input back;
- the packed stream is the bit string preceded by leading zero bits.

`heapq.heappop` is modelled as removing any node of least frequency. Which of
several such nodes it returns depends on heapq's array layout, so the model
leaves it open. Every property is proved for every choice.

Where the behaviour of the code differs from how the codec is usually
described, the model follows the code:
- **One-value input.** An input with a single distinct value makes the root a leaf. That value gets the empty code "", not "0", so the whole input encodes to the empty bit string. Packing it then fails, because `int("", 2)` raises. `CodeLengths`, `CompressedTable` and `RunScript` state this.
- **Padding position.** The padding bits are leading zeros, not trailing padding bits. They are a side effect of packing the number `int(compressed, 2)` big-endian (`PackedBits`).
- **Padding count.** The count is `8 - L % 8`, which is 8, not 0, when L is a multiple of 8 (see Findings).
- **Leftover bits.** Bits left in the decoder's accumulator at the end are dropped silently; no error is raised (`TruncatedStream`).
- **Empty input.** An empty input fails in `make_codes`, when `heappop` is called on an empty heap. It is modelled as the error `EmptyInput`.
- **Unknown value.** A value with no code raises `KeyError` in `encode_arr`. It is modelled as `UnknownSymbol`.

## Model

| member | source | states |
|---|---|---|
| HuffmanTree.FreqIsLeafSum | Huffman_RSA_Fernet.py:65 | in a tree built by merging, every node's frequency is the sum of the counts at its leaves |
| HuffmanTree.InternalNodesCount | Huffman_RSA_Fernet.py:60-69 | a tree has exactly one merged node fewer than it has leaves, so merging n leaves takes n-1 rounds |
| HuffmanTree.FollowReachesLeaf | Huffman_RSA_Fernet.py:76-79 | a path that ends at a leaf yields a value stored in the tree |
| HuffmanTree.FollowPrefixFree | Huffman_RSA_Fernet.py:72-82 | no root-to-leaf path is a proper prefix of another |
| HuffmanTree.FollowInjective | Huffman_RSA_Fernet.py:72-82 | when no value sits at two leaves, two paths reaching the same value are the same path |
| HuffmanTree.DistinctChildren | Huffman_RSA_Fernet.py:65-67 | the two subtrees of a merged node with no repeated value hold disjoint sets of values |
| HeapModel.RemoveAt | Huffman_RSA_Fernet.py:62-63 | removing one node shortens the heap by one and removes exactly that node from its contents |
| HeapModel.RemoveAtSum | Huffman_RSA_Fernet.py:62-63 | the heap's total frequency drops by exactly the removed node's frequency |
| HeapModel.RemoveAtSyms | Huffman_RSA_Fernet.py:62-63 | the heap's leaves lose exactly the removed node's leaves |
| HeapModel.PopPopPush | Huffman_RSA_Fernet.py:62-69 | two pops of least nodes and a push of their merge make one round that merges two least nodes |
| HeapModel.MergeShrinks | Huffman_RSA_Fernet.py:62-69 | each round leaves the heap one node smaller |
| HeapModel.MergeTraceRounds | Huffman_RSA_Fernet.py:60-69 | a sequence of rounds from n nodes to m nodes has n - m rounds |
| HeapModel.MinimumExists | Huffman_RSA_Fernet.py:25-26 | every non-empty heap has a node that no other node is `__lt__`, so heappop is always defined on it |
| Frequency.DistinctOnce | Huffman_RSA_Fernet.py:48-49 | a key order without repeats lists each value at most once, and exactly once if present |
| Frequency.KeysOnce | Huffman_RSA_Fernet.py:45-51 | the dict's keys, in iteration order, list every value of the input once and nothing else |
| Frequency.CountsSumToLength | Huffman_RSA_Fernet.py:45-51 | the counts of the frequency dict add up to the length of the input |
| Frequency.FirstOccurrencesKeys | Huffman_RSA_Fernet.py:45-51 | the keys in first-occurrence order are exactly the input's values, none repeated |
| Frequency.FirstOccurrencesOrder | Huffman_RSA_Fernet.py:47-49 | of two keys, the earlier one occurs in the input before the later one first occurs |
| Frequency.ScanStep | Huffman_RSA_Fernet.py:47-50 | one iteration inserts a value not yet seen with count 0, then adds one: the dict is then that of the input scanned one value further |
| Frequency.FirstOccurrencesCount | Huffman_RSA_Fernet.py:45-51 | the dict of first occurrences and occurrence counts is a frequency table of the input |
| Frequency.LeavesFacts | Huffman_RSA_Fernet.py:54-57 | make_heap pushes one leaf per key: their total frequency is the sum of the counts, their values are the keys, and each leaf carries its value's count |
| CodeTable.ReverseOfFollows | Huffman_RSA_Fernet.py:72-82 | the reverse entries written under a prefix are exactly that prefix followed by a root-to-leaf path, mapped to the leaf's value |
| CodeTable.CodesOfKeys | Huffman_RSA_Fernet.py:72-82 | the forward table written from a subtree has exactly the subtree's values as keys |
| CodeTable.CodesOfFollows | Huffman_RSA_Fernet.py:72-82 | with no repeated value, a value's code is the prefix followed by the path from the subtree's root to its leaf |
| CodeTable.CodesArePaths | Huffman_RSA_Fernet.py:85-88 | make_codes gives a code to a value if and only if it is in the tree, and the code is the path to its leaf |
| CodeTable.ReverseArePaths | Huffman_RSA_Fernet.py:85-88 | a bit string is in reverse_mapping if and only if it is a root-to-leaf path, and maps to that leaf's value |
| CodeTable.TableIsInverse | Huffman_RSA_Fernet.py:77-78 | codes and reverse_mapping are inverse to each other in both directions |
| CodeTable.TableIsPrefixFree | Huffman_RSA_Fernet.py:81-82 | no code in reverse_mapping is a prefix of another |
| CodeTable.CodeLengths | Huffman_RSA_Fernet.py:85-88 | with a merged root every code is non-empty; with a leaf root the only code is "" |
| Bitstream.EncodeSeqConcat | Huffman_RSA_Fernet.py:91-95 | encoding a concatenation is the concatenation of the encodings |
| Bitstream.UnitCodesEncodeLength | Huffman_RSA_Fernet.py:91-95 | with one-bit codes the stream has one bit per value |
| Bitstream.EmptyCodesEncodeNothing | Huffman_RSA_Fernet.py:91-95 | when every code is "" every input encodes to no bits, and those decode to nothing |
| Bitstream.DecodedFromTable | Huffman_RSA_Fernet.py:132-134 | every value the decoder emits is a value of reverse_mapping |
| Bitstream.DecodeOneCode | Huffman_RSA_Fernet.py:130-135 | with a prefix-free table, reading one whole code emits its value and resets the accumulator, whatever follows |
| Bitstream.PartialCode | Huffman_RSA_Fernet.py:130-135 | reading part of a code emits nothing and leaves those bits in the accumulator |
| Bitstream.DecodeEncodeAppend | Huffman_RSA_Fernet.py:126-137 | decoding an encoding followed by any bits yields the encoded values, then what those bits decode to |
| Bitstream.RoundTrip | Huffman_RSA_Fernet.py:126-137 | for inverse, prefix-free, non-empty codes, decode_arr(encode_arr(a)) == a with nothing left over |
| Bitstream.TruncatedStream | Huffman_RSA_Fernet.py:130-137 | a stream cut inside a code decodes without error to the values before the cut; the cut bits are dropped |
| Packing.ToBytes | Huffman_RSA_Fernet.py:166 | to_bytes(k, 'big') yields exactly k bytes |
| Packing.ToNatBound | Huffman_RSA_Fernet.py:166 | int(s, 2) of an L-bit string is below 2^L |
| Packing.PackFits | Huffman_RSA_Fernet.py:166 | the number always fits in (L + 7) // 8 bytes, so to_bytes never overflows |
| Packing.ToNatConcat | Huffman_RSA_Fernet.py:166 | reading a concatenated bit string shifts the front by the back's length |
| Packing.LeadingZeros | Huffman_RSA_Fernet.py:166 | leading zero bits do not change the value int(s, 2) |
| Packing.ToNatInjective | Huffman_RSA_Fernet.py:247 | two bit strings of the same length and value are equal |
| Packing.FixedBitsValue | Huffman_RSA_Fernet.py:247 | a byte's eight bits, most significant first, read back as the byte |
| Packing.BytesValue | Huffman_RSA_Fernet.py:172-247 | the bits of to_bytes(k, 'big') are 8k bits whose value is the packed number |
| Packing.PackedBits | Huffman_RSA_Fernet.py:172-247 | the bits of the packed bytes are 8*((L+7)//8) - L zero bits followed by the stream itself |
| Packing.PadLengthIsLeadingZeros | Huffman_RSA_Fernet.py:161 | the corrected count (8 - L % 8) % 8 is between 0 and 7, equals the number of leading zero bits, and aligns L to 8 |
| Packing.UnpackRoundTrip | Huffman_RSA_Fernet.py:161-172 | stripping the corrected count from the packed bits gives the stream back exactly |
| Packing.StrPadUnaligned | Huffman_RSA_Fernet.py:255 | when L % 8 != 0, str_pad is the number of leading zero bits, and bits.bin[str_pad:] is the stream |
| Packing.StrPadAligned | Huffman_RSA_Fernet.py:255 | when L % 8 == 0, str_pad is 8, and bits.bin[str_pad:] is the stream without its first 8 bits |
| Packing.StrPadStrips | Huffman_RSA_Fernet.py:161 | bits.bin[str_pad:] is the stream without its first 8 bits when L % 8 == 0, and the whole stream otherwise |
| Packing.StrPadLosesAByte | Huffman_RSA_Fernet.py:161 | the stream of eight "1" bits comes back empty after stripping str_pad |
| CodecFacts.MergedRoot | Huffman_RSA_Fernet.py:111-114 | one tree that keeps make_heap's total frequency and leaves has one leaf per distinct value, carrying its count, and a root frequency equal to the input length |
| CodecFacts.TreeShape | Huffman_RSA_Fernet.py:60-69 | that tree's root is a merged node exactly when the input has two different values; its leaves hold each value once; its leaf counts add up to the input length |
| CodecFacts.CompressedTable | Huffman_RSA_Fernet.py:111-118 | compress's tables give codes to exactly the input's values and are inverse and prefix-free; with two or more values decoding the encoding gives the input back, and with one value everything encodes to nothing |
| CodecFacts.EncodedNonEmpty | Huffman_RSA_Fernet.py:118 | with two or more values the encoded stream is not empty, so int(compressed, 2) is defined |
| CodecFacts.CorrectedPipeline | Huffman_RSA_Fernet.py:160-172 | encode, pack, read back, strip the corrected count and decode: every input with two or more values comes back unchanged |
| CodecFacts.TwoValueCodes | Huffman_RSA_Fernet.py:72-82 | a tree over exactly two values gives both values one-bit codes |
| CodecFacts.OneByteLost | Huffman_RSA_Fernet.py:255-257 | eight values of two kinds encode to eight bits, str_pad is 8, and stripping it leaves nothing to decode |
| CodecFacts.AlignedStreamLost | Huffman_RSA_Fernet.py:156-161 | for the input 0 1 0 1 0 1 0 1, whatever tree heappop's ties produce, the script decodes the empty sequence |
| Huffman.HuffmanCoding.constructor | Huffman_RSA_Fernet.py:37-40 | a new coder has an empty heap and empty tables |
| Huffman.HuffmanCoding.HeapPush | Huffman_RSA_Fernet.py:57 | heappush adds the node; total frequency and leaves grow by the node's; the tables are unchanged |
| Huffman.HuffmanCoding.HeapPop | Huffman_RSA_Fernet.py:62-63 | heappop removes and returns a node that no node in the heap is `__lt__`; the heap shrinks by exactly that node |
| Huffman.HuffmanCoding.MakeFrequencyDict | Huffman_RSA_Fernet.py:45-51 | the result's keys are the input's values in first-occurrence order (FirstOccurrences), each mapped to its number of occurrences (Histogram) |
| Huffman.HuffmanCoding.MakeHeap | Huffman_RSA_Fernet.py:54-57 | the heap grows by one leaf per key of the dict, in the dict's order, each leaf carrying its key's count |
| Huffman.HuffmanCoding.MergeNodes | Huffman_RSA_Fernet.py:59-69 | every round pops a least node and then a least node of the rest and pushes their merge (a MergeTrace from the old heap to the new); the loop ends with one node, or none if the heap was empty; total frequency, leaves and leaf counts are kept |
| Huffman.HuffmanCoding.MakeCodesHelper | Huffman_RSA_Fernet.py:72-82 | the tables gain exactly the entries CodesOf and ReverseOf give for the subtree and the current code |
| Huffman.HuffmanCoding.MakeCodes | Huffman_RSA_Fernet.py:85-88 | on a non-empty heap it pops a least node and labels it from ""; on an empty heap it fails and changes nothing |
| Huffman.HuffmanCoding.EncodeArr | Huffman_RSA_Fernet.py:91-95 | it succeeds exactly when every value has a code, giving the concatenated codes; otherwise it reports the first value without one |
| Huffman.HuffmanCoding.Compress | Huffman_RSA_Fernet.py:111-120 | an empty input fails at heappop; otherwise the root comes from make_heap's leaves by one least-pair merge per round, one round fewer than there are distinct values, the tables are those of a tree with one leaf per distinct value carrying its count, and the result is the input's encoding |
| Huffman.HuffmanCoding.DecodeArr | Huffman_RSA_Fernet.py:126-137 | the loop's output is the greedy decoding Decode of the input under reverse_mapping |
| Huffman.HuffmanCoding.Decompress | Huffman_RSA_Fernet.py:140-143 | decompress returns decode_arr's result |
| Huffman.RunScript | Huffman_RSA_Fernet.py:156-172 | empty input fails; otherwise the root is built by least-pair merges from make_heap's leaves; one value fails at int("", 2); two or more values come back unchanged when L % 8 != 0, and when L % 8 == 0 the first 8 bits are lost |

## Left out

- Reading the image and reshaping the result are left out. The model takes the flattened pixel array as input.
- Fernet and RSA encryption, key generation, and writing and reading the files are left out. Decryption is taken to return the encrypted bytes unchanged, so the bytes reach `BitArray` as packed.
- `write_codes` and its `codes.txt` file are left out.
- Timers, `print` calls and the compression ratio are left out.
- heapq's array layout is not modelled. Which of several equal-frequency nodes `heappop` returns is left open, so the exact code assignment among ties is not fixed.
- `HeapNode.__eq__` is left out. heapq never calls it. `root == None` in `make_codes_helper` would call it, but always gets False.
- The `root == None` branch of `make_codes_helper` is left out. No node reachable from the root is None.
- The claim that the tree is optimal (a minimal weighted code length) is not stated or proved.
- Huffman.HuffmanCoding.HeapPop: its contract does not fix which least node is returned, because that depends on heapq's internal order.
- Huffman.HuffmanCoding.Compress: it requires an empty heap, as the script's fresh coder has. Compressing twice with the same coder is not modelled.

## Findings

| source | as written | input that shows it | evidently intended | confidence | as-written member | corrected member |
|---|---|---|---|---|---|---|
| Huffman_RSA_Fernet.py:161 | `str_pad = 8 - (len(compressed) % 8)` is 8 when the stream length is a multiple of 8. Packing adds no padding then, so `bits.bin[str_pad:]` at line 255 drops the first 8 real bits. | pixels 0 1 0 1 0 1 0 1: both codes are one bit, the stream is 8 bits, and the script decodes the empty sequence | `(8 - len(compressed) % 8) % 8`, the number of leading zero bits packing adds, so that stripping returns the stream exactly | not executed | CodecFacts.AlignedStreamLost | CodecFacts.CorrectedPipeline |
