# Huffman and "VAE" compression backend — a verified model

The backend compresses an uploaded file in two stages. First `huffman_compress_bytes`:

1. count the bytes (`Counter`);
2. build a Huffman tree by repeatedly merging the two lowest-frequency nodes of a min-heap (`build_huffman_tree`);
3. record each leaf's root-to-leaf path as its code, `'0'` for left and `'1'` for right (`create_codes`);
4. concatenate the codes of the input bytes in order;
5. pad with `8 - len % 8` zero bits;
6. pack the bit string big-endian into bytes.

Then `vae_compress` keeps every other byte of the result.

This project models the `Node` record and the four functions `build_huffman_tree`, `create_codes`, `huffman_compress_bytes` and `vae_compress` of `backend/app.py` and proves properties of the model:

- the tree's root carries the total count;
- its leaves are exactly the counted bytes, and it has one internal node per merge;
- codes are root-to-leaf paths, prefix-free, and as long as the leaf is deep;
- when there are at least two distinct byte values, the encoding is injective;
- the encoding's length is the weighted code length;
- the padding and packing arithmetic works out, and the single-byte-value case gives the single byte 0;
- the stride keeps exactly the even positions.

Modules, one per concern of the source:

- `Wrappers`: `Option` and `Result`.
- `Bits`:
  - bytes (`Byte`) and bit characters (`Bit`);
  - Python's `int(s, 2)` (`ParseBase2`, which fails on the empty string);
  - `int.to_bytes(n, 'big')` (`ToBytesBig`, which fails on overflow);
  - the bit layout of packed bytes (`Packs`, `PackLayout`).
- `HuffmanTree`:
  - the `Node` record as a datatype: a leaf has a symbol, an internal node has two children;
  - the heap as a local sequence of nodes;
  - `heappop` (`HeapPop`) as the choice of *any* minimum-frequency node, so every property holds whichever node a tie picks;
  - `build_huffman_tree` as the imperative method `BuildTree`, with its two loops (`PushLeaves` and the merge loop, whose body is `MergeLowest`).
- `Codes`: `create_codes` as a recursive function that threads the codebook through the walk, left subtree before right.
- `Compress`:
  - the byte counter;
  - the code concatenation, the padding and the packing, as the method `EncodeAndPack`;
  - `huffman_compress_bytes` as the method `HuffmanCompressBytes`. Its ghost out-parameter names the tree it built.
- `Vae`: the `arr[::2]` stride.

Facts about `app.py` that the model keeps:

- A single distinct byte value makes the root a leaf and gets the empty code, so the output is the single byte 0.
- The code has no canonical-code rule, no decoder and no container format.
- `vae_compress` is plain striding.

## Model

| member | source | states |
|---|---|---|
| HuffmanTree.BuildTree | backend/app.py:21-32 | fails (IndexError at the last `heappop`) exactly when there are no items; otherwise the root is a tree whose leaves are exactly the items, each once, every internal node is the sum of its two children, the root frequency is the sum of all counts, and there are n-1 internal nodes for n items — for every tie choice of the heap |
| HuffmanTree.PushLeaves | backend/app.py:22-24 | the heap holds one leaf per item, in item order, carrying that item's byte and count |
| HuffmanTree.HeapPop | backend/app.py:27-28 | pops a node of the heap whose frequency is no larger than any remaining node's; the heap shrinks by one, the remaining nodes are exactly the other nodes of the heap, and the leaves under them are kept |
| HuffmanTree.MergeLowest | backend/app.py:26-30 | one loop iteration shrinks the heap by exactly one and pushes an internal node whose frequency is the sum of the two popped children, the first no heavier than the second and the second no heavier than any node left; the two children and the nodes left are exactly the nodes of the old heap, and no leaf is lost or added |
| HuffmanTree.MinExists | backend/app.py:27-28 | a non-empty heap has a minimum-frequency node, so `heappop` always has something to return |
| HuffmanTree.RootFreq | backend/app.py:29 | in a tree built by merges, each node's frequency is the total count of the leaves beneath it |
| HuffmanTree.LeafCount | backend/app.py:29 | a tree with k internal nodes has k+1 leaves |
| HuffmanTree.SymbolsOfLeaves | backend/app.py:19 | a byte is a symbol of the tree exactly when some leaf carries it |
| HuffmanTree.TotalFreqPerm | backend/app.py:23 | the total count does not depend on the order of the items |
| HuffmanTree.HasKeyPerm | backend/app.py:23 | the set of keys does not depend on the order of the items |
| Codes.CreateCodes | backend/app.py:34-40 | the codebook afterwards has the keys it had plus every leaf symbol of the walked tree, and keys outside the tree keep their old codes |
| Codes.CodeIsPath | backend/app.py:35-39 | the code recorded for a symbol is the prefix followed by a path that, from the root, ends at a leaf of that symbol ('0' left, '1' right) |
| Codes.CodeLengthIsDepth | backend/app.py:35-39 | the code's length is the prefix's length plus the depth of the symbol's leaf |
| Codes.LeafEndsPath | backend/app.py:35-36 | a path that ends at a leaf cannot be extended into another path that ends at a leaf |
| Codes.CodesPrefixFree | backend/app.py:35-39 | no symbol's code is a prefix of, or equal to, another symbol's code |
| Codes.CodeLength | backend/app.py:35-36 | every code is non-empty exactly when the root is internal; under a leaf root the only code is empty |
| Codes.StaleCodebook | backend/app.py:34 | walking into a codebook that already holds entries gives those entries overwritten by the codes of a walk into an empty one |
| Compress.Tally | backend/app.py:43 | counting one more occurrence of a byte raises its count by one and no other count, and the total by one |
| Compress.TallyKeys | backend/app.py:43 | counting a byte adds that byte to the keys and no other |
| Compress.TallyDistinct | backend/app.py:43 | counting never creates a duplicate key |
| Compress.CountBytes | backend/app.py:43 | `Counter(content)`: keys are distinct and are exactly the bytes of the input; each count is the byte's multiplicity; counts sum to the input length |
| Compress.CounterItems | backend/app.py:43 | every counted item is a byte of the input, with a count of at least one equal to its multiplicity |
| Compress.CountBytesEmpty | backend/app.py:43-44 | the counter is empty exactly for empty input |
| Compress.EncodeBits | backend/app.py:46 | the codes of the input bytes joined in input order (EncodeBitsAppend), empty exactly when every input byte's code is empty; every byte must have a code (KeyError otherwise), which `CodebookKeys` guarantees at the one call site |
| Compress.EncodeBitsAppend | backend/app.py:46 | the bits of a concatenation are the bits of its parts, in order: codes are joined in input order |
| Compress.EncodedLength | backend/app.py:46 | the unpadded bit string is as long as the sum, over distinct bytes, of count times code length |
| Compress.TallyCost | backend/app.py:43-46 | one more occurrence of a byte adds its code's length to the weighted code length |
| Compress.EncodeInjective | backend/app.py:35-46 | with an internal root, two inputs with the same unpadded bit string are the same input: the bit string parses uniquely back into the bytes |
| Compress.EncodeBitsAgree | backend/app.py:46 | codebooks that agree on the input's bytes give the same bit string |
| Compress.StaleEntriesHarmless | backend/app.py:34-46 | entries left in the default codebook from an earlier call never change the bit string of the current input |
| Compress.LeafRootEncodesEmpty | backend/app.py:35-46 | under a leaf root every byte's code is empty, so the bit string is empty |
| Compress.SingleSymbolNoBits | backend/app.py:43-46 | an input with one distinct byte value yields a leaf root and an empty unpadded bit string |
| Compress.Padding | backend/app.py:48 | `8 - n % 8` is between 1 and 8, makes the length a multiple of 8, and is a full 8 exactly when the length already is a multiple of 8 |
| Compress.PaddedBits | backend/app.py:48-49 | the padded string is the original followed by zero bits only, a multiple of 8 long, and 1 to 8 bits longer |
| Compress.PaddedEmpty | backend/app.py:48-49 | an empty bit string is padded to eight zero bits |
| Compress.PackBits | backend/app.py:51 | packing fails exactly on the empty string or on overflow; a non-empty string of whole bytes always packs, with bit i of the string at bit 7 - i % 8 of byte i / 8 |
| Compress.PackZeroByte | backend/app.py:51 | eight zero bits pack into the single byte 0 |
| Compress.CodebookKeys | backend/app.py:43-45 | the codebook of the built tree has a code for exactly the bytes of the input |
| Compress.EncodeAndPack | backend/app.py:46-51 | the output bytes are the big-endian packing of the joined codes followed by the zero padding, bit i of that string at bit 7 - i % 8 of byte i / 8; when the joined codes are empty the output is exactly the byte 0 |
| Compress.HuffmanCompressBytes | backend/app.py:42-52 | fails exactly on empty input; otherwise the tree is built from the byte counts with root frequency equal to the input length, the codebook is its fresh `create_codes` with a key for exactly the input's bytes, the bytes are the big-endian packing of the in-order codes plus padding, and one distinct byte value gives exactly the single byte 0 |
| Bits.ParseBase2 | backend/app.py:51 | `int(s, 2)` fails exactly on the empty string and otherwise is below 2 to the length |
| Bits.ToBytesBig | backend/app.py:51 | `to_bytes(length, 'big')` succeeds exactly when the value fits in `length` bytes, and then gives `length` bytes whose big-endian value is the input |
| Bits.BigEndianValue | backend/app.py:51 | the big-endian digits of a value that fits read back as that value |
| Bits.PackLayout | backend/app.py:51 | a bit string of whole bytes packs without overflow, bit i landing at bit 7 - i % 8 of byte i / 8 |
| Bits.BinaryValue | backend/app.py:51 | the value of a k-bit string is below 2 to the k |
| Bits.Zeros | backend/app.py:49 | `'0' * n`: n characters, all '0' |
| Bits.ZerosValue | backend/app.py:49-51 | a string of zero bits has value 0 |
| Vae.Downsample | backend/app.py:54-57 | `arr[::2]` of n bytes has (n+1)/2 bytes, element i being input element 2i |

## Left out

- The Flask application, CORS, routes, uploads, `secure_filename`, file reads and writes, and directory creation (backend/app.py:1-16, 59-122). These are I/O and web plumbing.
- How the upload handler chains `huffman_compress_bytes` into `vae_compress` (backend/app.py:84-85). It belongs to the excluded handler. Both functions are modelled on their own.
- The zip container (backend/app.py:87-89). It is a foreign library.
- The compression-ratio and space-saving metrics and the console output (backend/app.py:91-100). They use floating point, `round` and `print`.
- numpy. `np.frombuffer(...)[::2].tobytes()` is modelled as striding a byte sequence.
- Python's heap order among equal frequencies. That order comes from comparing `(freq, Node)` tuples. When a merged node and a leaf have equal frequency, comparing them evaluates `None < byte` and raises TypeError. Reading backend/app.py:24-30 with CPython's `heapq` rules (not executed), input `b"abcc"` fails this way at the `heappush` on line 30: it compares `(2, Node(2, None, a, b))` with `(2, Node(2, 99, None, None))`. HuffmanTree.HeapPop: the model does not fix which minimum-frequency node is taken, and never raises TypeError. Every stated property holds for any choice. So "fails exactly on empty input" in the BuildTree and HuffmanCompressBytes rows describes the model: the program can also fail with TypeError on such ties.
- The heap's internal array layout. The heap is a sequence, and a push appends to it.
- Codes.CreateCodes: the shared mutable default `codebook={}` is not modelled as global state. Each call takes its codebook as a parameter, and `HuffmanCompressBytes` passes an empty one. Codes.StaleCodebook and Compress.StaleEntriesHarmless show that a reused default could only add stale keys of earlier inputs. Those keys appear in the returned codebook, but the bit string never uses them.
- HuffmanCompressBytes: the returned codebook does not carry any stale keys from earlier calls, for the reason above.
- Optimality of the Huffman code (minimal weighted length). The source does not state it, and it is not proved.
- Counts are unbounded naturals. Python integers are unbounded, so no width is modelled.
- Decoding. The source has no decoder. Unique decodability is stated instead, as Compress.EncodeInjective.
