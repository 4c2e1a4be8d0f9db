# Huffman processor, modelled in Dafny

`HuffProcessor` compresses a byte stream with a Huffman code and decompresses it again. `compress` works in four steps:

1. It counts the bytes of the input (`readForCounts`).
2. It builds a code tree by repeatedly merging the two lightest trees of a priority queue (`makeTreeFromCounts`).
3. It derives a table of root-to-leaf paths from that tree (`makeCodingsFromTree`, `codingHelper`).
4. It writes the output:
   - the 32-bit magic number `HUFF_TREE`;
   - the tree as a preorder header (`writeHeader`);
   - the body, which is each input byte's code followed by the code of the synthetic symbol `PSEUDO_EOF` (`writeCompressedBits`).

`decompress` checks the magic number, reads the tree back (`readTreeHeader`) and walks it bit by bit (`readCompressedBits`). At each leaf it writes that leaf's byte, and it stops at the `PSEUDO_EOF` leaf.

The model keeps the program's own structure.

- **Streams.** An input stream is the sequence of its unread bits (`seq<bool>`, most significant bit first). `ReadBits` is `readBits`: it returns -1 when too few bits are left. An output stream is the sequence of bits written so far.
- **Tree.** A `HuffNode` is the datatype `Tree`, with cases `Leaf(value, weight)` and `Node(weight, left, right)`.
- **Imperative parts.** These are methods with loops and invariants:
  - the counting loop;
  - the priority-queue loops;
  - the `encodings` array that `codingHelper` fills in place;
  - the encoding and decoding loops.
- **Header codec.** `writeHeader` and `readTreeHeader` are pure functions, with the round trip as a lemma.
- **Failures.** A `HuffException`, and the null dereference of a leaf root, are `Fail` values of a `Result`.

Three facts about the code shape the model.

- A built tree is never a single leaf with the empty path as its only code:
  - it queues a leaf for every nonzero count, and the `PSEUDO_EOF` slot always has count 1;
  - it then queues a second `PSEUDO_EOF` leaf of weight 0.

  So the root of a built tree is always an internal node, and two of its leaves hold `PSEUDO_EOF` (`TreeBuilding.BuiltRoot`).
- On a tree read from a header whose root is a leaf, `readCompressedBits` dereferences a null child. The model returns `NullChild` for that case.
- Of the two `PSEUDO_EOF` leaves, `codingHelper` records the path of the one it visits last (`Codings.LastLeafWins`).

Files:
- `bits.dfy`: bit strings, plus `readBits` and `writeBits`.
- `format.dfy`: the constants and the failure kinds.
- `streams.dfy`: bytes read from and written to a stream.
- `tree.dfy`: the tree.
- `counting.dfy`: counting.
- `building.dfy`: tree construction.
- `codings.dfy`: the code table.
- `header.dfy`: the header codec.
- `body.dfy`: the body codec.
- `processor.dfy`: compress and decompress, and the end-to-end properties.

## Model

| member | source | states |
|---|---|---|
| Counting.ReadForCounts | src/HuffProcessor.java:117-126 | the array has ALPH_SIZE + 1 entries; for every byte value v below 256, counts[v] is the number of times v occurs among the input's bytes; counts[PSEUDO_EOF] is 1 whatever the input, the empty input included |
| Counting.CountStep | src/HuffProcessor.java:119-122 | one round of the counting loop: the value read is a byte (0..255), and the unread bytes lose exactly one occurrence of it and no other, so counting it keeps "count so far + occurrences still unread = occurrences in the whole input" for every byte |
| Counting.OccursMultiplicity | src/HuffProcessor.java:117-126 | the occurrence count the counting loop keeps equals the multiplicity of the byte in the multiset of the input's bytes |
| Counting.CountedAll | src/HuffProcessor.java:119-120 | when readBits returns -1 fewer than 8 bits are left, no byte is unread, and every count is the byte's multiplicity in the whole input |
| Counting.CountsAre | src/HuffProcessor.java:117-126 | counts that agree with the byte occurrences below 256 and hold 1 at PSEUDO_EOF are exactly CountsOf(input) |
| Counting.CountedByte | src/HuffProcessor.java:120-122 | every byte that occurs in the input is below ALPH_SIZE and has a nonzero count |
| TreeBuilding.MakeTreeFromCounts | src/HuffProcessor.java:100-115 | in the returned tree every internal node weighs the sum of its children; the root weighs the sum of all counts; the multiset of its leaves is one Leaf(i, counts[i]) per nonzero count plus one Leaf(PSEUDO_EOF, 0) |
| TreeBuilding.MergeLightest | src/HuffProcessor.java:107-113 | merging down to one tree keeps the sum-of-children weights, gives the root the total weight of the queue, and gives it exactly the queue's leaves (as a multiset) |
| TreeBuilding.RemoveMin | src/HuffProcessor.java:108-109 | pq.remove() returns a tree that no queued tree undercuts in weight, and the queue with exactly that one entry taken out |
| TreeBuilding.MergeKeepsQueue | src/HuffProcessor.java:108-111 | one round of the merge loop shortens the queue by exactly one, keeps its total weight and its leaves, and keeps every queued tree's internal weights the sums of their children's |
| TreeBuilding.QueueRemoveWeight | src/HuffProcessor.java:108 | taking a tree out of the queue takes exactly its weight out of the queue's total |
| TreeBuilding.QueueRemoveLeaves | src/HuffProcessor.java:108 | taking a tree out of the queue takes exactly its leaves out of the queue's leaf multiset |
| TreeBuilding.QueueAppend | src/HuffProcessor.java:111 | pq.add(t) adds t's weight to the total and t's leaves after the others |
| TreeBuilding.WeightConcat | src/HuffProcessor.java:101-113 | the weight of two queues side by side is the sum of their weights |
| TreeBuilding.LeavesConcat | src/HuffProcessor.java:101-113 | the leaves of two queues side by side are the first queue's followed by the second's |
| TreeBuilding.CountLeavesQueue | src/HuffProcessor.java:103-105 | the leaves queued by the first loop weigh the sum of all counts and are their own leaves |
| TreeBuilding.CountLeavesMembers | src/HuffProcessor.java:103-105 | the first loop queues a leaf (v, w) exactly when v is an index with a nonzero count and w is that count, and queues each at most once |
| TreeBuilding.BuiltLeaves | src/HuffProcessor.java:104-106 | a leaf (v, w) is in the built tree if and only if counts[v] = w > 0 or (v, w) = (PSEUDO_EOF, 0); the tree has one leaf more than there are nonzero counts |
| TreeBuilding.BuiltRoot | src/HuffProcessor.java:104-113 | the built root is an internal node if and only if some count is nonzero; with counts[PSEUDO_EOF] > 0 it is an internal node holding both a weight-0 and a weight-counts[PSEUDO_EOF] PSEUDO_EOF leaf |
| Codings.MakeCodingsFromTree | src/HuffProcessor.java:82-87 | the array has ALPH_SIZE + 1 entries; entry v is the code of v in the tree, or null (None) when no leaf holds v |
| Codings.CodingHelper | src/HuffProcessor.java:89-98 | for each symbol held by a leaf under t, the entry becomes path followed by that symbol's code in t; every other entry is left as it was |
| Codings.CodesKeys | src/HuffProcessor.java:89-98 | exactly the symbols held by the tree's leaves get a code |
| Codings.CodeReachesLeaf | src/HuffProcessor.java:89-98 | every recorded code is a root-to-leaf path (false left, true right) that ends at a leaf holding its symbol, and it is nonempty when the root is an internal node |
| Codings.PrefixFree | src/HuffProcessor.java:89-98 | the code of one symbol is never a prefix of another symbol's code |
| Codings.LastLeafWins | src/HuffProcessor.java:91 | each symbol's code is the path of the last leaf, in left-to-right order, that holds it; for PSEUDO_EOF, that is the later-visited leaf |
| Codings.CodesOfNode | src/HuffProcessor.java:94-97 | at an internal node, a symbol has a code when a child has one; its code is 1 then the right child's code if the right child holds it, else 0 then the left child's code |
| Codings.LeafHasCode | src/HuffProcessor.java:90-91 | the symbol of every leaf of the tree gets a code |
| Header.WriteHeader | src/HuffProcessor.java:70-80 | the preorder header: the first bit is the tag, 1 exactly for a leaf, and a leaf takes the tag plus its value in BITS_PER_WORD + 1 bits |
| Header.ReadTreeHeader | src/HuffProcessor.java:152-169 | the reader fails (None) when a tag bit cannot be read, in particular on an empty stream; otherwise it consumes at least one bit from the front and leaves the rest of the stream unread; the 9-bit leaf value is not checked for -1 |
| Header.HeaderLength | src/HuffProcessor.java:70-80 | the header takes one bit per internal node and BITS_PER_WORD + 2 bits per leaf |
| Header.HeaderRoundTrip | src/HuffProcessor.java:152-169 | reading the header written for any tree, followed by any bits, gives back the tree's shape and its leaf values modulo 2^(BITS_PER_WORD + 1), with every weight 0, and leaves exactly the following bits unread |
| Header.SkeletonCodes | src/HuffProcessor.java:160-167 | for leaf values below 2^(BITS_PER_WORD + 1), the tree read back is an internal node exactly when the original is, and it has the same codes |
| Header.TruncatedHeader | src/HuffProcessor.java:152-169 | a header cut short is never read as a tree followed by further bits: either a tag-bit read returns -1 (HuffException), or the cut fell inside a leaf value, which is read as -1 with nothing left unread |
| Header.TruncatedLeaf | src/HuffProcessor.java:165-167 | a leaf whose 9-bit value is cut short reads as the unchecked value -1 |
| Body.WriteCompressedBits | src/HuffProcessor.java:57-68 | the bits written are the codes of the input's bytes in order, followed by the code of PSEUDO_EOF |
| Body.ReadCompressedBits | src/HuffProcessor.java:171-189 | the loop returns what DecodeFrom(root, root, input) describes: the bytes written and the bits left unread, or the failure |
| Body.WalkPath | src/HuffProcessor.java:175-185 | reading a path from a node to a leaf stops at PSEUDO_EOF with the following bits unread; at any other leaf it writes that leaf's value in BITS_PER_WORD bits and goes on from the root |
| Body.WalkCut | src/HuffProcessor.java:175-176 | reading a proper prefix of a path to a leaf fails with "no PSEUDO_EOF" |
| Body.DecodeCode | src/HuffProcessor.java:175-185 | decoding one whole code from the root writes its byte and restarts at the root, or, for PSEUDO_EOF, stops |
| Body.BodyRoundTrip | src/HuffProcessor.java:171-189 | decoding a body written with a tree's codes, followed by any bits, gives back exactly the bytes encoded, in order, and leaves the following bits unread |
| Body.BodyNeedsPseudoEof | src/HuffProcessor.java:175-176 | decoding any proper prefix of such a body fails with "no PSEUDO_EOF" |
| HuffProcessor.BuiltCodes | src/HuffProcessor.java:45-47 | the tree built for an input has an internal root, symbols from 0 to PSEUDO_EOF only, and a code for PSEUDO_EOF and for every input byte |
| HuffProcessor.Compress | src/HuffProcessor.java:43-55 | the tree used is one makeTreeFromCounts may build for the input's counts, and the output is HUFF_TREE in 32 bits, then the header, then the body |
| HuffProcessor.MagicBits | src/HuffProcessor.java:49 | the first 32 bits written hold the value HUFF_TREE |
| HuffProcessor.Decompress | src/HuffProcessor.java:137-149 | the result is what Decompression describes: wrong magic, a header tag that cannot be read, or a body without PSEUDO_EOF each fail; otherwise the bytes decoded |
| HuffProcessor.RoundTrip | src/HuffProcessor.java:137-149 | decompressing what compress wrote, whatever bits follow it, gives back the input's bytes |
| HuffProcessor.FramedRoundTrip | src/HuffProcessor.java:140-147 | the magic number, a tree's header and a body encoded with its codes decompress to the encoded bytes, whatever follows |
| HuffProcessor.TruncatedFails | src/HuffProcessor.java:137-149 | decompressing any proper prefix of what compress wrote fails |
| HuffProcessor.FramedTruncated | src/HuffProcessor.java:140-147 | any proper prefix of the magic number, a header and a body fails to decompress |
| HuffProcessor.WrongMagic | src/HuffProcessor.java:140-143 | a stream whose first 32 bits are not HUFF_TREE fails with an illegal header reporting those bits, before any header bit is read |
| HuffProcessor.ShortStream | src/HuffProcessor.java:140-142 | a stream shorter than 32 bits fails with an illegal header reporting -1 |
| HuffProcessor.MagicOnly | src/HuffProcessor.java:153-156 | a stream that holds only the magic number fails because the first header tag cannot be read |
| Streams.EmitWords | src/HuffProcessor.java:183 | writing back, in BITS_PER_WORD bits each, every byte read from a stream reproduces its whole bytes |

## Left out

- The bit-stream collaborators are not part of this model. Their buffering, `reset()` and the zero padding `close()` adds are left out: a stream is its sequence of bits, and compress reads its input twice as the same sequence.
- `Integer.parseInt(code, 2)` and `writeBits(code.length(), …)` are modelled as appending the code's bits directly. The model does not reproduce what happens to codes longer than 31 bits, which parseInt cannot hold.
- Counts and node weights are unbounded naturals. The Java `int` overflow of `counts[value]++` on inputs of 2^31 or more equal bytes is not modelled. Nor is the overflow of `HuffNode` weights, which are `int` too: merged weights overflow once the input reaches about 2^31 bytes in total, however they are spread, so `root.weight == Total(counts)` (TreeBuilding.MakeTreeFromCounts) holds in Java only below that size.
- `java.util.PriorityQueue` and the node ordering are not part of this model. RemoveMin takes some tree of least weight, and no contract depends on which of several equally light trees it takes, so no tree shape and no optimality of the code lengths are claimed.
- HUFF_NUMBER and HUFF_TREE are kept as unsigned 32-bit patterns, not Java's negative int values. The 32 bits written and compared are the same. The value an illegal header reports (`IllegalHeader(found)`) is the unsigned value of the 32 bits read too: Java's `bits` is signed, so a stream starting with 32 one bits reports -1 there, the same value as end of data, where the model reports 0xFFFFFFFF.
- The debug level, the constructors and the exception message texts are left out. Only which kind of failure occurs is modelled.
- On a failure, the bytes decompress has already written before it throws are not part of the result.
- HuffProcessor.RoundTrip: states the round trip for the input's whole bytes; a trailing partial byte, which no file has, is never read by readBits(BITS_PER_WORD) and is not restored.
