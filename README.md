# Huffman-style text compressor, modelled in Dafny

This project models the code builder of `text_compressor/main.go`:

- the `Node` type;
- `mergenodes`;
- `BuildHuffmanTree`, which makes one leaf per entry of the frequency map and then merges the first two nodes of a work list, first in first out, until one node is left;
- `traversehuffman`, which writes `'0'` for a left step and `'1'` for a right step into a code map;
- `Compress`, which counts the bytes of the text, builds the tree, records the codes and concatenates the code of every byte.

Modules:

- `HuffmanTree` (`huffman_tree.dfy`): the node datatype `Tree`, where `Nil` is a nil `*Node` and the field `ch` is Go's `char`. It also holds `MergeNodes`, the FIFO merge as a function (`FifoMerge`) and the method `BuildHuffmanTree`.
- `HuffmanCodes` (`huffman_codes.dfy`): `TraverseHuffman`, which gives the code map after the call. The module also proves that the codes it records are root-to-leaf paths and are prefix-free.
- `TextCompressor` (`text_compressor.dfy`): `Compress` and the two loops it runs, `CountFrequencies` and `EncodeText`. The module also holds the length and count lemmas.
- `Rotation` (`rotation.dfy`): sequence rotations. Each FIFO merge moves the leaves of the first two nodes to the back, so the leaves of the final tree are a rotation of the input leaves.

Go does not fix the iteration order of a map. `BuildHuffmanTree` and `Compress` therefore take an extra parameter `order`: any list of the map's keys, each listed once (`IsEnumeration`). Every property is proved for every such order.

Where the code differs from an idealised Huffman coder, the model follows the code:

- Merging takes the first two nodes in list order. There is no heap, sort or frequency comparison, so the tree is not in general an optimal Huffman tree.
- A code is recorded at every node whose `char` is not 0. Internal nodes carry `char` 0, so they get no code, and neither does a leaf for byte 0x00. `Compress` reads a missing code as `""`, so NUL bytes add nothing to the output.
- With a single distinct byte, the root is that byte's leaf and the byte's code is `""`, not `"0"`. The compressed string is then empty.
- The source has no decoder, so none is modelled.

An empty text leaves the node list empty, and `nodes[0]` at line 44 would be out of range. The model therefore requires a non-empty map in `BuildHuffmanTree` and a non-empty text in `Compress`.

## Model

| member | source | states |
|---|---|---|
| `HuffmanTree.MergeNodes` | text_compressor/main.go:18-25 | the parent has `char` 0, frequency `Left.freq + Right.freq` and exactly the two given children; it is well-formed when both children are; its leaves are the left leaves followed by the right leaves; it adds one internal node |
| `HuffmanTree.LeafNodes` | text_compressor/main.go:31-36 | the first loop builds one leaf per key, at the key's position in the iteration order, holding the key and its map frequency |
| `HuffmanTree.BuildHuffmanTree` | text_compressor/main.go:28-45 | requires a non-empty map. The merge loop's invariant counts its iterations, so the loop ends after N − 1 merges for N keys. The result is the FIFO merge of the leaves. It is a non-nil tree in which every internal node has two children. Its root frequency is the sum of all input frequencies. Its leaves are a rotation of the input leaves. Each leaf is a `(key, charfreq[key])` entry, and each key appears exactly once. It has N leaves and N − 1 internal nodes |
| `HuffmanTree.FifoMergeWellFormed` | text_compressor/main.go:39-44 | FIFO merging a list of one or more well-formed trees gives a non-nil well-formed tree |
| `HuffmanTree.FifoMergeFreq` | text_compressor/main.go:21 | each merge keeps the total frequency of the work list, so the root frequency is the sum of the frequencies in the list |
| `HuffmanTree.FifoMergeLeaves` | text_compressor/main.go:39-43 | the leaves of the merged tree are a rotation of the leaves of the work list, so none is lost, duplicated or added |
| `HuffmanTree.LeavesOfEnumeration` | text_compressor/main.go:31-43 | every leaf of the built tree is a map entry with its frequency, and every entry's leaf occurs exactly once |
| `HuffmanTree.HuffmanTreeOfLeaves` | text_compressor/main.go:28-45 | merging the leaves of N ≥ 1 keys gives a well-formed non-nil tree. The root carries the frequency sum. The tree has exactly those leaves, N of them, and N − 1 internal nodes |
| `HuffmanTree.InternalCountOfHuffmanTree` | text_compressor/main.go:39-43 | a tree in which every node has zero or two children has one internal node fewer than it has leaves |
| `HuffmanTree.LeafNodesOnce` | text_compressor/main.go:31-36 | with distinct keys, each key's leaf is built exactly once |
| `HuffmanTree.LeafNodesChars` | text_compressor/main.go:31-36 | the leaves built carry exactly the keys of the map |
| `HuffmanCodes.TraverseHuffman` | text_compressor/main.go:48-59 | after the call, the map holds the old keys plus every non-zero `char` in the tree. Each recorded byte maps to the starting code followed by its path from the root, where `'0'` is left, `'1'` is right, and the last write in pre-order wins. Every other key is unchanged |
| `HuffmanCodes.PathLeadsToChar` | text_compressor/main.go:52-58 | the path `TraverseHuffman` records for a byte leads from the root to a node carrying that byte |
| `HuffmanCodes.CodedCharsAreLeafChars` | text_compressor/main.go:52-53 | in a well-formed tree, the bytes that get a code are exactly the leaf bytes other than 0 |
| `HuffmanCodes.CodesArePaths` | text_compressor/main.go:48-59 | after `traversehuffman(root, "", {})`, the keys are the coded bytes. Each code is the root-to-leaf path of a leaf carrying that byte, so the code's length is that leaf's depth |
| `HuffmanCodes.CodesArePrefixFree` | text_compressor/main.go:52-58 | no recorded code is a prefix of another byte's code |
| `TextCompressor.FrequenciesCount` | text_compressor/main.go:63-67 | the counted map has a key exactly for each byte of the text, holding its number of occurrences |
| `TextCompressor.CountFrequencies` | text_compressor/main.go:63-67 | the counting loop of `Compress` produces the frequency map of the whole text |
| `TextCompressor.EncodeText` | text_compressor/main.go:75-79 | the encoding loop produces the in-order concatenation of the codes of the text's bytes, using `""` for a missing code |
| `TextCompressor.Compress` | text_compressor/main.go:62-80 | requires a non-empty text. Returns the code map of the tree built from the text's counts, the concatenated codes of the text, and that string's length |
| `TextCompressor.CompressedOutput` | text_compressor/main.go:62-80 | exactly the non-zero bytes of the text get a code. Each code leads from the root to the leaf of its byte, and that leaf carries the byte's count. No code is a prefix of another. The compressed length is the sum over the keys of frequency × code length |
| `TextCompressor.CountsSum` | text_compressor/main.go:63-67 | the counts add up to the length of the text |
| `TextCompressor.CountsLength` | text_compressor/main.go:75-80 | for any code map, the concatenated codes are as long as the sum over the keys of count × code length |
| `TextCompressor.CompressedLength` | text_compressor/main.go:75-80 | `Compress`'s third result equals the sum over the keys of frequency × code length |
| `TextCompressor.RootFrequency` | text_compressor/main.go:63-69 | the root of the tree `Compress` builds carries the length of the text |
| `TextCompressor.CodeKeys` | text_compressor/main.go:62-73 | the code map's keys are the distinct bytes of the text, minus byte 0 |
| `TextCompressor.CodesAreLeaves` | text_compressor/main.go:62-73 | each code leads from the root to the leaf `(byte, occurrences of byte)` |
| `TextCompressor.SingleDistinctByte` | text_compressor/main.go:62-80 | with one distinct byte, the tree is that byte's leaf and its code is `""` (there is no code at all for byte 0), so the compressed string is `""` and the length is 0 |
| `TextCompressor.BumpSum` | text_compressor/main.go:66 | one more occurrence of a key adds one to the total frequency of the leaves |
| `TextCompressor.BumpLength` | text_compressor/main.go:75-79 | one more occurrence of a key adds one copy of its code length to the encoded length |

## Left out

- `main` in text_compressor/main.go:83-122 is left out because it is all I/O: argument checking, opening and stat-ing the file, reading lines with `bufio.Scanner` (which appends `"\n"` to each line), and printing. This also leaves out the printed `compressedlength/8`.
- json_parser/main.go is not part of this model. It is a wrapper around file reading and the library JSON decoder, plus a console prompt.
- Go's map iteration order is not modelled as a choice the runtime makes. It is the parameter `order`, and every result holds for every order.
- Go's `int` is 64 bits wide, and the model does not capture its overflow. Frequencies, the root's frequency sum and the compressed length are unbounded integers. They cannot overflow for any text that fits in memory.
- `traversehuffman` fills a caller-owned map in place. The model is a function from the map before the call to the map after it. It does not model aliasing of that map.
- In Go the nodes are referenced through `*Node`; here they are values. Nothing in the core shares or mutates a node after building it, so no behaviour is lost.
- The two loops of `Compress` are the methods `CountFrequencies` and `EncodeText`, and `Compress` calls them in the source's order. `charfreq[text[i]]++` appears in the loop as a map update, with a missing key read as 0.
- Decoding, priority-queue merging by lowest frequency, tie-break rules, bit packing and serialized headers are not modelled, because the source has none of them.
