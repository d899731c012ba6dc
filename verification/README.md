# Verified models of six algorithm exercises

This project models, in Dafny, the algorithmic cores of a set of course
assignments and proves what their code promises:

- **Huffman codec** (`assignment-1/question-7`), in two variants:
  - `question-7-testing.cpp` takes `int` symbols and packs the code bits
    eight to a byte, most significant bit first. Its decoder is told how
    many symbols to produce.
  - `question-7.cpp` takes byte (`char`) symbols and writes the code as a
    string of `'0'`/`'1'` characters.
  - Both run the same pipeline: count frequencies, greedily merge the two
    lightest trees, read codes off root-to-leaf paths, encode, and decode by
    walking the tree.
- **AVL tree** (`assignment-2/question-5.cs`): insert and delete with single
  and double rotations, and a stored height per node.
- **Dijkstra** (`assignment-2/question-7.cpp`): shortest distances over a
  `char`-keyed adjacency map. It uses an `INT_MAX` distance table, a visited
  set and a lazy min-heap.
- **Towers of Hanoi on a peg graph** (`assignment-1/question-1/question-1.cpp`).
  Disks may only move along the edges of a five-peg graph. The solver
  recurses through "adjacent" and "non-adjacent" moves and throws on an
  illegal move.
- **Binary search** (`assignment-1/question-6/tests`): the same loop in C++,
  Python and TypeScript, each with its own midpoint arithmetic. Also the
  sorted arrays the benchmarks search.
- **Matrix addition** (`assignment-1/question-4/question-4.cpp`): an `n x n`
  matrix in one contiguous block, with its constructor, copy and assignment,
  and row-major and column-major addition.

One module per file:

| file | module | contents |
|---|---|---|
| `wrappers.dfy` | `Wrappers` | `Option`, `Result` |
| `huffman_tree.dfy` | `HuffmanTree` | the code tree, its symbols, walks |
| `huffman_build.dfy` | `HuffmanBuild` | frequency counting (hash map and 256 buckets), leaf forest, merge loop |
| `huffman_codes.dfy` | `HuffmanCodes` | `generateCodes`/`getCodeMap`, prefix-freeness |
| `bit_packing.dfy` | `BitPacking` | bytes as `bv8`, MSB-first bit order, padding |
| `huffman_codec.dfy` | `HuffmanCodec` | encode/decode loops of both variants and their reference walks |
| `huffman_roundtrip.dfy` | `HuffmanRoundTrip` | decode-after-encode for both variants |
| `avl.dfy` | `AvlTree` | rotations, `Balance`, `Insert`, `MinValueNode`, `Delete` |
| `dijkstra.dfy` | `Dijkstra` | the heap loop and its shortest-path correctness |
| `hanoi.dfy` | `Hanoi` | pegs, towers, `moveDisk`, the recursive solver |
| `binary_search.dfy` | `BinarySearch` | the three loops, their midpoints, the array builders |
| `matrix.dfy` | `MatrixAddition` | `Matrix`, copy/assign, both addition orders |

Conventions of the model:

- Pointers and in-place updates become immutable datatypes and pure
  functions.
- A thrown exception becomes the `Failure` case of a `Result`.
- Loops that matter are kept as methods with loop invariants. Each is tied
  to a functional reference definition.

## Model

| member | source | states |
|---|---|---|
| HuffmanBuild.CountFreqs | assignment-1/question-7/question-7-testing.cpp:28-32 | the frequency table has a key exactly for each symbol occurring in the data, and its value is that symbol's number of occurrences |
| HuffmanBuild.FirstOccurrences | assignment-1/question-7/question-7-testing.cpp:36-38 | the leaf order lists every distinct symbol of the data exactly once and nothing else |
| HuffmanBuild.LeavesFor | assignment-1/question-7/question-7-testing.cpp:36-38 | one leaf per listed symbol, in that order, each carrying the symbol's counted frequency |
| HuffmanBuild.FirstOccurrenceCounts | assignment-1/question-7/question-7-testing.cpp:28-38 | every leaf symbol is in the frequency table with a positive count equal to its occurrences in the data |
| HuffmanBuild.IntLeavesSyms | assignment-1/question-7/question-7-testing.cpp:36-38 | the initial forest holds exactly one leaf per distinct symbol of the data |
| HuffmanBuild.IntLeavesWeight | assignment-1/question-7/question-7-testing.cpp:28-38 | the leaf frequencies of the initial forest add up to the length of the data |
| HuffmanBuild.IntLeavesShape | assignment-1/question-7/question-7-testing.cpp:36-40 | the initial forest is empty exactly for empty data; every leaf has a positive frequency equal to its symbol's count |
| HuffmanBuild.MinIndex | assignment-1/question-7/question-7-testing.cpp:21-25 | the chosen tree has the least frequency in the forest (ties go to the earliest one), which is what the frequency-only `Compare` puts on top |
| HuffmanBuild.RemoveAtConserves | assignment-1/question-7/question-7-testing.cpp:43-46 | popping a tree off the forest removes exactly its symbols and its weight |
| HuffmanBuild.Merge | assignment-1/question-7/question-7-testing.cpp:43-50 | one merge step removes the two popped trees, first popped as left child and second as right, and adds one internal node over them with the sum of their frequencies; the other trees stay in order |
| HuffmanBuild.MergeConserves | assignment-1/question-7/question-7-testing.cpp:42-51 | a merge step keeps the multiset of leaf symbols and the total weight of the forest, and keeps every tree well formed |
| HuffmanBuild.MergeKeepsFreqs | assignment-1/question-7/question-7-testing.cpp:42-51 | after a merge step every leaf still carries its symbol's occurrence count |
| HuffmanBuild.MergeAll | assignment-1/question-7/question-7-testing.cpp:42-53 | merging until one tree is left yields a tree with all the forest's symbols and weight; it is full when the forest was; a one-tree forest is returned as is |
| HuffmanBuild.MergeAllKeepsFreqs | assignment-1/question-7/question-7-testing.cpp:42-53 | the final tree's leaves carry the occurrence counts of their symbols |
| HuffmanBuild.BuildFromLeaves | assignment-1/question-7/question-7-testing.cpp:40-53 | no tree exactly when there are no leaves; otherwise a tree over exactly the leaves' symbols whose root frequency is their total |
| HuffmanBuild.BuildKeepsDistinct | assignment-1/question-7/question-7-testing.cpp:36-53 | leaves with distinct symbols give a tree in which no symbol labels two leaves |
| HuffmanBuild.BuildHuffmanTree | assignment-1/question-7/question-7-testing.cpp:27-54 | null exactly for empty data; otherwise a full tree (each internal frequency the sum of its children's) with one leaf per distinct symbol, leaf frequencies equal to occurrence counts and root frequency equal to the data length |
| HuffmanBuild.ByteCounts | assignment-1/question-7/question-7.cpp:24-28 | 256 buckets, bucket `c` holding the number of occurrences of byte `c` |
| HuffmanBuild.BucketSumIsLength | assignment-1/question-7/question-7.cpp:24-28 | the buckets add up to the length of the input |
| HuffmanBuild.ByteLeaves | assignment-1/question-7/question-7.cpp:32-36 | every leaf made from the buckets is a leaf for a byte with a positive count, carrying that count |
| HuffmanBuild.ByteLeavesForest | assignment-1/question-7/question-7.cpp:32-36 | the bucket scan makes exactly one leaf per byte value with a positive count, and the leaves weigh the bucket total |
| HuffmanBuild.BuildHuffmanTreeBytes | assignment-1/question-7/question-7.cpp:23-52 | null exactly for the empty string; otherwise a full tree with one leaf per distinct byte, leaf frequencies equal to occurrence counts and root frequency equal to the string length |
| HuffmanCodes.CodesDomain | assignment-1/question-7/question-7-testing.cpp:56-67 | the code walk gives codes exactly to the symbols already in the table and the symbols of the subtree it visits |
| HuffmanCodes.CodesKeep | assignment-1/question-7/question-7-testing.cpp:56-67 | the code walk leaves the entries of symbols outside the visited subtree untouched |
| HuffmanCodes.CodeOf | assignment-1/question-7/question-7-testing.cpp:56-67 | the code recorded for a leaf symbol is the path so far followed by the '0'/'1' steps (left/right) that lead from the subtree to that leaf |
| HuffmanCodes.ExtendCode | assignment-1/question-7/question-7-testing.cpp:65-66 | a code that leads from a child after the step to it ('0' left, '1' right) leads from the parent |
| HuffmanCodes.NodeCodes | assignment-1/question-7/question-7-testing.cpp:65-66 | from a root with children every symbol gets a non-empty '0'/'1' code whose walk ends on that symbol's leaf |
| HuffmanCodes.CodeMapSpec | assignment-1/question-7/question-7-testing.cpp:56-73 | the table has an entry exactly for the tree's symbols, every code is non-empty and binary, a lone leaf gets the code "0", otherwise each code is the root-to-leaf path, and no code is a prefix of another |
| HuffmanCodes.LeadingCodesPrefixFree | assignment-1/question-7/question-7-testing.cpp:56-73 | codes that each lead to their own leaf of one tree form a prefix-free table |
| HuffmanCodes.Bits | assignment-1/question-7/question-7-testing.cpp:83-86 | a code character stands for a set bit exactly when it is '1' |
| BitPacking.MaskShift | assignment-1/question-7/question-7-testing.cpp:85 | the mask for bit position `j` is `1 << (7 - j)` |
| BitPacking.BitAtShift | assignment-1/question-7/question-7-testing.cpp:117 | bit `i` of a byte is `(byte >> i) & 1` |
| BitPacking.SetBit | assignment-1/question-7/question-7-testing.cpp:84-86 | or-ing in the mask of position `j` sets that stream bit and no other |
| BitPacking.ByteOfBits | assignment-1/question-7/question-7-testing.cpp:83-87 | the byte built from up to eight stream bits holds the first bit in its most significant position and zeros after the last |
| BitPacking.ByteOfRoundTrip | assignment-1/question-7/question-7-testing.cpp:83-98 | reading a byte built from up to eight bits back, most significant bit first, gives those bits followed by zero padding |
| BitPacking.PadLength | assignment-1/question-7/question-7-testing.cpp:96-98 | the padding is under eight bits and completes the last byte |
| BitPacking.UnpackAt | assignment-1/question-7/question-7-testing.cpp:115-117 | in the unpacked stream, byte `k`'s bit `i` comes at position `8k + 7 - i` |
| HuffmanCodec.PushBit | assignment-1/question-7/question-7-testing.cpp:83-92 | appending one code bit to the packer keeps the completed bytes plus the partial byte equal to the bits written so far; an eighth bit flushes the byte and resets |
| HuffmanCodec.WriteCode | assignment-1/question-7/question-7-testing.cpp:83-93 | writing a whole code appends exactly its bits to what the packer holds |
| HuffmanCodec.Flush | assignment-1/question-7/question-7-testing.cpp:96-98 | after the final partial byte is pushed, the bytes unpack to the written bits followed by zero padding up to a byte boundary |
| HuffmanCodec.Encode | assignment-1/question-7/question-7-testing.cpp:75-101 | fails exactly when some symbol has no code (naming such a symbol); otherwise the bytes, MSB first, are the concatenated codes followed by fewer than eight zero bits |
| HuffmanCodec.Walk | assignment-1/question-7/question-7-testing.cpp:114-125 | the tree walk emits at most the symbol quota and at most one symbol per bit |
| HuffmanCodec.Repeat | assignment-1/question-7/question-7-testing.cpp:110 | `resize(n, sym)` yields exactly `n` copies of the symbol |
| HuffmanCodec.DecodedPacked | assignment-1/question-7/question-7-testing.cpp:103-128 | decoding never yields more symbols than the requested count |
| HuffmanCodec.WalkStep | assignment-1/question-7/question-7-testing.cpp:117-122 | one bit moves the walk to a child; reaching a leaf emits its symbol and restarts at the root |
| HuffmanCodec.DecodeByte | assignment-1/question-7/question-7-testing.cpp:116-124 | the inner loop consumes a byte's bits most significant first and stops early only once the symbol count is reached, continuing the walk it started |
| HuffmanCodec.DecodeStep | assignment-1/question-7/question-7-testing.cpp:117-122 | one turn of either decoding loop (take a child; on a leaf emit and restart) leaves the symbols emitted so far followed by the rest of the walk unchanged |
| HuffmanCodec.WalkPacked | assignment-1/question-7/question-7-testing.cpp:114-125 | the byte loop of `decode` over a tree with children emits exactly the quota-bounded walk over the unpacked bits, stopping at the quota |
| HuffmanCodec.Decode | assignment-1/question-7/question-7-testing.cpp:103-128 | a null root gives nothing; a single-leaf root gives exactly `originalSize` copies of its symbol whatever the bytes are; otherwise the walk over the bytes' bits, cut off at `originalSize` symbols |
| HuffmanCodec.TextBitAt | assignment-1/question-7/question-7.cpp:87 | a text bit steps left exactly when it is '0'; any other character steps right |
| HuffmanCodec.DecodedText | assignment-1/question-7/question-7.cpp:73-94 | text decoding yields at most one symbol per character |
| HuffmanCodec.WalkBoundUnused | assignment-1/question-7/question-7.cpp:85-92 | a symbol bound of at least the number of bits never stops the walk, so the unbounded text walk is the bounded one |
| HuffmanCodec.RepeatPerChar | assignment-1/question-7/question-7.cpp:78-83 | a lone-leaf root yields its symbol exactly once per encoded character, whatever the characters are |
| HuffmanCodec.WalkText | assignment-1/question-7/question-7.cpp:85-93 | the character loop emits exactly the tree walk in which '0' steps left and any other character steps right |
| HuffmanCodec.DecodeText | assignment-1/question-7/question-7.cpp:73-94 | a null root gives nothing; a single-leaf root gives one copy of its symbol per input character; otherwise the tree walk over the characters |
| HuffmanRoundTrip.WalkCode | assignment-1/question-7/question-7-testing.cpp:114-122 | walking a symbol's root-to-leaf path emits exactly that symbol and restarts at the root for the bits after it |
| HuffmanRoundTrip.WalkCodes | assignment-1/question-7/question-7-testing.cpp:114-125 | walking the concatenated codes of a sequence gives the sequence back, and with a quota equal to its length the padding after it is ignored |
| HuffmanRoundTrip.TableCoversData | assignment-1/question-7/question-7-testing.cpp:56-73 | for a tree whose leaves are the data's distinct symbols, every data symbol has a binary code: "0" for a lone leaf, its leaf path otherwise |
| HuffmanRoundTrip.PackedTableCovers | assignment-1/question-7/question-7-testing.cpp:162-164 | the table built from the data has a code for every data symbol, so the encoder's `at` never throws in the pipeline |
| HuffmanRoundTrip.PackedRoundTrip | assignment-1/question-7/question-7-testing.cpp:103-128 | bytes that unpack to the data's codes followed by any padding decode, with the data's length as count, to the data |
| HuffmanRoundTrip.PackedPipeline | assignment-1/question-7/question-7-testing.cpp:162-170 | build, code table, encode and decode with `data.size()` give back the data, including empty and single-symbol data |
| HuffmanRoundTrip.TextBitsOfBinary | assignment-1/question-7/question-7.cpp:87 | on a string of '0'/'1' the decoder's reading of characters as steps agrees with the encoder's reading as bits |
| HuffmanRoundTrip.CodeStringBinary | assignment-1/question-7/question-7.cpp:110-112 | concatenating '0'/'1' codes gives a '0'/'1' string |
| HuffmanRoundTrip.CodeStringUnitLength | assignment-1/question-7/question-7.cpp:110-112 | with one-character codes, as a lone leaf's "0", the encoded text has exactly one character per input symbol |
| HuffmanRoundTrip.TextRoundTrip | assignment-1/question-7/question-7.cpp:73-94 | decoding the concatenated codes of an input with a tree whose leaves are its distinct symbols gives the input back |
| HuffmanRoundTrip.EncodeText | assignment-1/question-7/question-7.cpp:110-112 | the encode loop appends each character's code in input order |
| HuffmanRoundTrip.TextPipeline | assignment-1/question-7/question-7.cpp:105-114 | build, code table, encode loop and decode give back the input string |
| AvlTree.RotateRight | assignment-2/question-5.cs:36-48 | the left child becomes the subtree root; the in-order key sequence and key-to-payload content are unchanged, and stored heights are correct again |
| AvlTree.RotateRightOrdered | assignment-2/question-5.cs:36-48 | a right rotation keeps a search tree a search tree |
| AvlTree.RotateLeft | assignment-2/question-5.cs:50-62 | the right child becomes the subtree root; in-order keys and content are unchanged, and stored heights are correct again |
| AvlTree.RotateLeftOrdered | assignment-2/question-5.cs:50-62 | a left rotation keeps a search tree a search tree |
| AvlTree.Balance | assignment-2/question-5.cs:64-82 | rebalancing returns a node with the same in-order keys and content, and keeps stored heights correct |
| AvlTree.BalanceOrdered | assignment-2/question-5.cs:64-82 | rebalancing keeps a search tree a search tree |
| AvlTree.BalanceRestores | assignment-2/question-5.cs:64-82 | on a node whose children are AVL trees and whose balance factor is within ±2, rebalancing gives an AVL tree whose height grows by at most one over its taller child; a node already within ±1 comes back unchanged |
| AvlTree.LeftLeftCase | assignment-2/question-5.cs:68-72 | balance factor +2 with a left child leaning left or even: one right rotation gives an AVL tree |
| AvlTree.LeftRightCase | assignment-2/question-5.cs:68-72 | balance factor +2 with a left child leaning right: rotating the child left and the node right gives an AVL tree as tall as the old left child |
| AvlTree.LeftRightShape | assignment-2/question-5.cs:70-72 | the left-right double rotation lifts the left child's right child to the root, with the left child and the old root as its children |
| AvlTree.RightRightCase | assignment-2/question-5.cs:74-78 | balance factor -2 with a right child leaning right or even: one left rotation gives an AVL tree |
| AvlTree.RightLeftCase | assignment-2/question-5.cs:74-78 | balance factor -2 with a right child leaning left: rotating the child right and the node left gives an AVL tree as tall as the old right child |
| AvlTree.RightLeftShape | assignment-2/question-5.cs:76-78 | the right-left double rotation lifts the right child's left child to the root, with the old root and the right child as its children |
| AvlTree.Insert | assignment-2/question-5.cs:84-98 | insertion returns a non-empty tree whose stored heights are all correct |
| AvlTree.InsertContent | assignment-2/question-5.cs:84-98 | insertion keeps the search-tree order and adds the key with its payload when absent; a present key keeps its old payload |
| AvlTree.InsertPresent | assignment-2/question-5.cs:89-94 | inserting a key that is already present leaves the tree exactly as it was |
| AvlTree.InsertBalanced | assignment-2/question-5.cs:84-98 | insertion into an AVL tree gives an AVL tree, at most one level taller |
| AvlTree.MinValueNode | assignment-2/question-5.cs:100-106 | the leftmost node's key is in the tree and, in a search tree, is its least key, returned with its own payload |
| AvlTree.Delete | assignment-2/question-5.cs:108-138 | deletion returns a tree whose stored heights are all correct |
| AvlTree.DeleteContent | assignment-2/question-5.cs:108-138 | deletion keeps the search-tree order and removes exactly the key (with its payload) from the content |
| AvlTree.DeleteWithSuccessor | assignment-2/question-5.cs:124-130 | replacing a two-child node by its in-order successor's key and payload, then deleting the successor from the right subtree, removes exactly the node's key |
| AvlTree.DeleteBalanced | assignment-2/question-5.cs:108-138 | deletion from an AVL tree gives an AVL tree, at most one level shorter |
| AvlTree.DeleteAbsent | assignment-2/question-5.cs:108-116 | deleting a key that is not in the tree leaves it exactly as it was |
| AvlTree.Run | assignment-2/question-5.cs:140-141 | any sequence of public inserts and deletes keeps every stored height correct |
| AvlTree.RunKeepsInvariant | assignment-2/question-5.cs:140-141 | from an ordered AVL tree, any sequence of public inserts and deletes leaves an ordered AVL tree |
| Dijkstra.PopMin | assignment-2/question-7.cpp:41-43 | the popped entry is a least (distance, vertex) pair of the heap, and the rest is the heap without that one entry |
| Dijkstra.InitOk | assignment-2/question-7.cpp:29-38 | every vertex key at `INT_MAX`, `start` at 0 and the heap holding only `(0, start)` satisfy the loop invariant |
| Dijkstra.SkipOk | assignment-2/question-7.cpp:45-48 | dropping a stale heap entry of an already visited vertex keeps the loop invariant |
| Dijkstra.VisitFrontier | assignment-2/question-7.cpp:41-50 | the least heap entry of an unvisited vertex carries that vertex's table distance, and visiting it keeps every visited vertex no farther and every unvisited one no nearer than that distance |
| Dijkstra.EdgeStep | assignment-2/question-7.cpp:54-58 | one edge step leaves a visited neighbour alone; otherwise it changes only the neighbour's entry, never raises it, lowers it only to `dist + weight` while pushing that entry, and enters a neighbour missing from the table with 0 unless `dist + weight` is below 0 |
| Dijkstra.StepShortens | assignment-2/question-7.cpp:55-57 | an unvisited neighbour that `dist + weight` improves gets that distance, pushed onto the heap |
| Dijkstra.StepKeeps | assignment-2/question-7.cpp:55 | an edge that improves nothing changes neither the table nor the heap |
| Dijkstra.LowerBound | assignment-2/question-7.cpp:54-58 | once every reached vertex's edges are relaxed, no path from `start` weighs less than its end vertex's table entry |
| Dijkstra.MissingOk | assignment-2/question-7.cpp:54 | a popped vertex without adjacency entry, on which `g.at(u)` throws, can only arise when the graph lacks `start` (the vertex is then `start`) or has a negative edge |
| Dijkstra.Relax | assignment-2/question-7.cpp:54-59 | relaxing all edges of the visited vertex keeps the loop invariant; no known distance grows, and the queue keeps its entries and only gains pushes at the back |
| Dijkstra.Visit | assignment-2/question-7.cpp:50-59 | visiting the popped vertex adds exactly it to the visited set and keeps the loop invariant |
| Dijkstra.Step | assignment-2/question-7.cpp:40-59 | one pass of the outer loop either reports a popped vertex missing from the graph, or keeps the invariant and visits a new vertex or shrinks the heap |
| Dijkstra.ExitOk | assignment-2/question-7.cpp:40-62 | when the heap empties, the table has an entry for every vertex and `start`; with non-negative weights the entries for neighbours outside the graph are 0; with edges also staying inside the graph it holds the shortest distances |
| Dijkstra.Finish | assignment-2/question-7.cpp:40-62 | at loop exit on a graph that holds `start`, has non-negative weights and edges only to its own vertices, every entry is the least path weight from `start` and unreachable vertices keep `INT_MAX` |
| Dijkstra.Dijkstra | assignment-2/question-7.cpp:23-63 | a `start` outside the graph throws on it, and only a vertex outside the graph is ever reported; a result has an entry for every vertex and `start`; with `start` present and non-negative weights it never throws and neighbours outside the graph end at 0; if moreover every edge stays inside the graph, the result is exactly the shortest distances with `INT_MAX` for unreachable vertices |
| Hanoi.RankIsNameOrder | assignment-1/question-1/question-1.cpp:108 | the peg order used for "first candidate" is the string order of the peg names |
| Hanoi.Undirected | assignment-1/question-1/question-1.cpp:17-21 | the peg graph has no self-loops and every edge is listed in both directions |
| Hanoi.Auxiliary | assignment-1/question-1/question-1.cpp:72-81 | the auxiliary peg is the name-least neighbour of `dst` other than `src`, and missing exactly when there is none |
| Hanoi.Intermediate | assignment-1/question-1/question-1.cpp:92-100 | the intermediate peg is the name-least common neighbour of `src` and `dst`, and missing exactly when there is none |
| Hanoi.NewSolver | assignment-1/question-1/question-1.cpp:15-32 | the constructor stacks disks n..1 bottom to top on Start (none for n <= 0), leaves every other peg empty and counts no moves |
| Hanoi.StackDisks | assignment-1/question-1/question-1.cpp:29-31 | the start tower reads n, n-1, ..., 1 from the bottom |
| Hanoi.InitialValid | assignment-1/question-1/question-1.cpp:24-31 | the initial position is legal and holds each disk 1..n exactly once |
| Hanoi.MoveDiskFaults | assignment-1/question-1/question-1.cpp:41-51 | the empty-tower error happens exactly on an empty source; the smaller-disk error reports the popped disk, the smaller top it would land on, and the towers with the disk already gone from the source |
| Hanoi.MoveDiskSpec | assignment-1/question-1/question-1.cpp:41-54 | in a legal position a move succeeds exactly when the source has a disk and the target is empty or topped by a bigger one; it then moves that disk alone and counts one move |
| Hanoi.MovePreservesValid | assignment-1/question-1/question-1.cpp:46-54 | a successful move keeps every tower strictly decreasing and the multiset of disks unchanged |
| Hanoi.AuxiliaryFacts | assignment-1/question-1/question-1.cpp:72-81 | for an edge into a peg other than Start an auxiliary peg exists, is not Start, and is adjacent to the target |
| Hanoi.IntermediateFacts | assignment-1/question-1/question-1.cpp:92-100 | for pegs with a common neighbour and a target other than Start, the intermediate peg exists, is not Start, and links source and target |
| Hanoi.AdjacentMoves | assignment-1/question-1/question-1.cpp:69-86 | with every other top bigger than `k`, `moveAdjacent(k)` along an edge moves the top `k` disks in order to the target, never throws, and counts `(3^k - 1) / 2` moves |
| Hanoi.NonAdjacentMoves | assignment-1/question-1/question-1.cpp:89-104 | `moveNonAdjacent(k)` between pegs two edges apart moves the top `k` disks in order to the target without throwing, in `3^k - 1` moves |
| Hanoi.StartToDestMoves | assignment-1/question-1/question-1.cpp:60-67 | `startToDest(k)` moves the top `k` disks from Start to Dest in order, never throws, and counts `3^k - 1` moves |
| Hanoi.Solve | assignment-1/question-1/question-1.cpp:34-38 | solving n disks succeeds with disks n..1 on Dest, every other peg empty, a legal final position and `3^n - 1` moves |
| Hanoi.FinalValid | assignment-1/question-1/question-1.cpp:60-67 | the finishing position, all disks on Dest, is legal |
| BinarySearch.MidsAgree | assignment-1/question-6/tests/test.ts:7 | inside the loop the TypeScript midpoint equals the C++ and Python ones and lies in `[left, right]` |
| BinarySearch.MidsBelow | assignment-1/question-6/tests/test.cpp:12 | outside the loop's range (`left > right`) the Python and TypeScript midpoints always agree, and the C++ one equals them when `right - left` is even and is one above them when it is odd |
| BinarySearch.BisectSound | assignment-1/question-6/tests/test.cpp:11-20 | any index the search returns lies in the range and holds the target |
| BinarySearch.BisectComplete | assignment-1/question-6/tests/test.cpp:11-23 | on a sorted array, -1 comes back only when no index of the range holds the target |
| BinarySearch.SearchSpec | assignment-1/question-6/tests/test.cpp:7-24 | the answer is -1 or an index of the array, an index answer holds the target, and on a sorted array it is -1 exactly when the target is absent |
| BinarySearch.CppBinarySearch | assignment-1/question-6/tests/test.cpp:7-24 | the C++ loop returns the reference search's answer: -1 or an index holding the target, -1 on a sorted array exactly when the target is absent |
| BinarySearch.PyBinarySearch | assignment-1/question-6/tests/test.py:4-18 | the Python loop, with floor division, returns the same answer as the reference search, with the same guarantees |
| BinarySearch.TsBinarySearch | assignment-1/question-6/tests/test.ts:2-19 | the TypeScript loop, with the floored average midpoint, returns the same answer as the reference search, with the same guarantees |
| BinarySearch.CreateBinarySearchableArray | assignment-1/question-6/tests/test.cpp:26-32 | the array has `size` slots with slot `i` holding `i` |
| BinarySearch.Range | assignment-1/question-6/tests/test.py:20-22 | `list(range(size))` holds `0..size-1` in order and is empty for `size <= 0` |
| BinarySearch.SearchIdentity | assignment-1/question-6/tests/test.ts:21-27 | in an array holding `i` at slot `i`, every stored value is found at its own index and any other target gives -1 |
| BinarySearch.UnsuccessfulSearch | assignment-1/question-6/tests/test.cpp:65-66 | the benchmarks' search for `size + 1` in their array returns -1 in all three languages |
| MatrixAddition.Zero | assignment-1/question-4/question-4.cpp:14-16 | `Matrix(n)` has dimension `n` and a block of `n*n` zeros |
| MatrixAddition.CopyBlock | assignment-1/question-4/question-4.cpp:24 | copying `n*n` elements reproduces the source block |
| MatrixAddition.CopyOf | assignment-1/question-4/question-4.cpp:22-25 | the copy constructor gives a matrix equal to the original in dimension and every element |
| MatrixAddition.Assign | assignment-1/question-4/question-4.cpp:27-35 | after assignment the target equals the source; self-assignment leaves the target as it was |
| MatrixAddition.AddRow | assignment-1/question-4/question-4.cpp:54-56 | one pass of the row-major inner loop fills row `i` with the cell sums and leaves the other rows as they were |
| MatrixAddition.AddRowMajor | assignment-1/question-4/question-4.cpp:50-59 | the row-major sum has dimension `A.n` and cell `(i, j)` equal to `A(i, j) + B(i, j)`, so it is the element-wise sum (all zeros when `n` is negative) |
| MatrixAddition.AddColumn | assignment-1/question-4/question-4.cpp:66-68 | one pass of the column-major inner loop fills column `j` with the cell sums and leaves the other columns as they were |
| MatrixAddition.AddColumnMajor | assignment-1/question-4/question-4.cpp:62-71 | the column-major sum has dimension `A.n` and cell `(i, j)` equal to `A(i, j) + B(i, j)`, so it is the element-wise sum (all zeros when `n` is negative) |
| MatrixAddition.BothOrders | assignment-1/question-4/question-4.cpp:50-71 | row-major and column-major addition return identical matrices, the element-wise sum |

## Left out

- Timing, benchmark and `main` drivers, random input generation
  (`generateSymbols`, `fillWithRandomValues`, the C# `Experiment` with its
  RNG, GC probes and CSV log), and all console output. They are I/O,
  clocks and randomness and hold no logic of the cores.
- `deleteTree`, the matrix destructor and every `new`/`delete`. Trees and
  matrices are immutable values here, so ownership has nothing to model.
- HuffmanBuild.BuildHuffmanTree: the C++ breaks frequency ties by heap
  internals, and its leaves come in `unordered_map` iteration order. The
  model fixes one rule and does not claim the same tree bit for bit:
  - leaves come in first-occurrence order (ascending byte value for the
    text variant);
  - the first least tree is popped.

  Every property proved holds for any pair of trees merged. Code
  optimality (least weighted path length) is not modelled.
- HuffmanBuild.BuildHuffmanTree: the `uint64_t` frequencies of the packed
  variant and the `int` buckets of the text variant are unbounded `nat`s.
  Inputs long enough to overflow them are out of reach.
- Internal Huffman nodes carry a symbol in the source (`-1`, `'\0'`) that
  is never read. The model's internal nodes have no symbol.
- HuffmanBuild.BuildHuffmanTreeBytes: a `char` is modelled as its unsigned
  byte value 0..255. The leaf stores `(char)i` and the encoder looks up the
  input `char`, which name the same byte, so nothing depends on `char`
  being signed.
- Dijkstra.Dijkstra: `int` overflow of `dist + weight` is not modelled.
  Distances are unbounded integers, so a sum past `INT_MAX` compares as
  its true value rather than wrapping.
- Dijkstra.PopMin: the heap is a sequence with a least-element pop. Ties
  between equal distances are broken by vertex in Dafny's `char` order,
  which is unsigned and also admits code points above 0xFF. The source
  compares `std::pair<int, char>`, and `char` is signed on the usual
  targets, so there vertex bytes 0x80 and above come before ASCII ones.
  No other contract depends on the tie order.
- Dijkstra.Dijkstra: shortest-distance correctness is proved for graphs
  that contain `start`, have only non-negative weights and name only key
  vertices as neighbours. On other graphs the contract states only:
  - the key-set facts;
  - the failure cases;
  - that a neighbour missing from the table is entered with distance 0.
- AvlTree.Insert: the node's matrix payload (`int[side, side]` with `side`
  from `Math.Sqrt`) is an opaque value carried along unexamined.
- AvlTree.Insert: the node constructor throws for a payload size `m < 1`
  (`side` is then 0, or negative, and `Matrix[0, 0]` or the allocation
  fails), so inserting a new key with such an `m` raises. The model assumes
  every payload constructs, because the only caller passes sizes from
  `{1048576, 786432, 393216}`.
- AvlTree.Insert: stored heights are `nat`. `int` height overflow would
  need a tree of more than 2^31 levels.
- AvlTree.DeleteBalanced: the public class is modelled through `Run`, a
  sequence of `Insert`/`Delete` calls starting from a given tree.
- Hanoi.Solve: takes a non-negative disk count. For a negative count the
  source's `startToDest` recursion never reaches 0 and overflows the stack,
  which is not modelled. The constructor alone (`NewSolver`) takes any
  `int`.
- Hanoi.Solve: `long long moveCount` is an unbounded `nat`. The uncaught
  `logic_error` that would end the program is the `Failure` value, and it
  is proved never to arise for `solve`.
- Hanoi.MoveDiskSpec: the printed move log is not modelled.
- BinarySearch.CppBinarySearch: `array.size() - 1` converted to `int` is
  modelled as `|arr| - 1`. This is exact for arrays of fewer than 2^31
  elements, and larger ones are not modelled.
- BinarySearch.TsBinarySearch: TypeScript `number`s are IEEE doubles; the
  model uses integers, which agree with them on every index below 2^53.
- BinarySearch.CreateBinarySearchableArray: takes `size >= 0`. For a
  negative size the C++ `std::vector` constructor and the TypeScript
  `Array` constructor throw, which is not modelled. The Python builder,
  `Range`, takes any integer.
- MatrixAddition.AddRowMajor: `int` overflow of an element sum, and of
  `n * n` or `i * n + j` for huge `n`, is not modelled. Elements are
  unbounded integers.
- MatrixAddition.Assign: C++ decides self-assignment by address
  (`this != &other`). The model passes that identity as the flag
  `aliased`, which implies equal values.
- The allocator and OS probes (`question-5.c`, `question-7.c`,
  `question-6.cpp`, `question-6-info.cpp`), the random-update benchmark
  (`assignment-2/question-4.cpp`) and the React demo are outside the
  modelled cores.

## Notes on the code's own behaviour

- **Packed `decode` can return fewer symbols than asked.** When the bytes
  run out before `originalSize` symbols, the result is shorter
  (`Walk` stops on either bound).
- **Text `decode` keeps no count.** It emits a symbol at every leaf it
  reaches. Steps of an unfinished code at the end of the string are
  dropped.
- **Dijkstra and neighbours outside `g`.** `distances[v]` is an
  `operator[]` read. For a neighbour that is not a key of `g`, it inserts
  that vertex with distance 0, and a non-negative edge never improves on
  0. Such a vertex ends with 0 in the result instead of its distance.
- **Dijkstra and vertices with no entry in `g`.** If `start`, or a pushed
  vertex, has no adjacency entry, `g.at(u)` throws `std::out_of_range`.
  The model returns `Failure(MissingVertex(u))` in that case.
- **Matrices with negative `n`.** Both additions allocate `n * n`
  elements. Their loops run zero times, so the result is all zeros.
- **`moveDisk` is not atomic.** When it throws for a smaller disk, the
  disk has already been popped from the source.
