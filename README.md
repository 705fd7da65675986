# Huffman packet codec

A Dafny model of the network packet codec in
`src/ballistica/generic/huffman.cc`. The codec is a Huffman coder over
the 256 byte values, with a per-symbol escape to raw 8-bit literals.

- `Huffman::build` fills a 511-slot node table in place. The 256 leaves
  take the built-in frequencies. Then 255 merges each join the two
  lightest parentless nodes under a new node. The parent link is stored
  with an offset: node p is kept as `p - 255`, and 0 means none.
  Finally each leaf is walked up to the root, 510, to derive its code.
  A code is a control bit of 1 followed by the root path. When the path
  has 8 or more turns it is replaced by a control bit of 0 followed by
  the byte itself.
- `DoWriteBits` ORs a code into a zeroed buffer, least significant bit
  first.
- `Huffman::compress` writes a header byte and then the codes. The
  header holds the number of unused trailing bits and the compressed
  flag in its top bit. It returns the packet unchanged when coding would
  not shrink it.
- `Huffman::decompress` reads the packet back bit by bit. It takes a
  literal after a 0 and walks the tree after a 1.

The model has four modules:

- `BitOps` (`bitops.dfy`): `>>`, `<<`, `|`, single bits, and the cast
  to `uint8_t`, over natural numbers.
- `HuffmanTree` (`tree.dfy`): the node table as a sequence of `Node`
  records.
  - `Stage` and `Merge` are a reference definition of the merge loop,
    with the scan's exact tie-break.
  - `Coded` is the reference definition of the code table.
  - Lemmas show that the loop builds a tree rooted at 510 and that every
    leaf gets a 2- to 9-bit code meaning its root path or its literal.
- `Wire` (`wire.dfy`): the packet format as functions over byte strings.
  - `IsCompressionOf` is what compress produces.
  - `Decompress` is the decoder with every payload read guarded.
  - `DecompressAsWritten` is the decoder exactly as the C++ has it.
  - The main results are the round trip, the agreement of the two
    decoders, and a packet on which the code as written reads past the
    buffer.
- `Huffman` (`huffman.dfy`): the codec object.
  - `class Codec` owns `nodes: array<Node>` and `built`. `Build`, its
    loops, `Compress` and `Decompress` are imperative methods with while
    loops.
  - Each method is proved against the functions above:
    - `Build` leaves `BuiltTable(freqs)` in the array.
    - `Compress` returns a packet satisfying `IsCompressionOf`.
    - `Decompress` returns `Wire.Decompress`.
  - `DoWriteBits` works on an `array<byte>`.

Three details of the code shape the model:

- **Tie-break (lines 526-537).** The scan keeps three rules:
  - It compares a candidate only with the heavier of the two current
    picks.
  - When the two picks weigh the same, that is `smallest2`.
  - A candidate replaces a pick only when it is strictly lighter.

  `HuffmanTree.Pick` has exactly these rules.
- **Remainder check (lines 142-151).** The remainder is the low four
  bits of the header. It is rejected only when it exceeds
  `(length - 1) * 8`, at line 150. A remainder from 8 to 15 within
  that bound is not rejected by itself; it only shortens the bit
  stream. `Wire.Decompress` states BadRemainder under exactly this
  condition.
- **Build in the constructor (lines 52-55).** The table is built once,
  when the object is constructed, and so it is in
  `Huffman.Codec.constructor`.

## Model

| member | source | states |
|---|---|---|
| Huffman.DoWriteBits | src/ballistica/generic/huffman.cc:42-50 | Every bit of the buffer afterwards is its old bit, ORed with bit k of `val` at position start + k for k < valBits. The cursor advances by exactly valBits positions and stays a (byte, bit < 8) pair. No byte before the start byte changes. |
| Huffman.SetBit | src/ballistica/generic/huffman.cc:45 | `x \| (c << b)` on a byte with c < 2 and b < 8 stays a byte and sets bit b when c is 1, leaving the other bits alone. |
| Huffman.Codec.constructor | src/ballistica/generic/huffman.cc:52-55 | A fresh table of blank nodes is built from g_freqs. The object ends valid, with `nodes` equal to `BuiltTable(GFreqs)`. |
| Huffman.Codec.Build | src/ballistica/generic/huffman.cc:481-586 | Given `!built` and a blank table, it leaves exactly `BuiltTable(freqs)` in `nodes` and sets `built`. |
| Huffman.Codec.Seed | src/ballistica/generic/huffman.cc:486-488 | Leaf i gets frequency freqs[i] and nothing else changes, giving `Seeded(freqs)`. |
| Huffman.Codec.MergeAll | src/ballistica/generic/huffman.cc:508-546 | The merge loop runs 255 turns, ending at node_count 511, and leaves the reference tree `Stage(seeded, 255)`. |
| Huffman.Codec.MergeStep | src/ballistica/generic/huffman.cc:517-545 | One turn on a table satisfying the loop invariant leaves exactly `Merge` of the old table: the lightest two parentless nodes, picked by the scan's tie-break, get node count as parent. |
| Huffman.Codec.Smallest | src/ballistica/generic/huffman.cc:517-537 | The selection loops return exactly `SelectTwo` of the table. |
| Huffman.Codec.FirstUnparented | src/ballistica/generic/huffman.cc:520-524 | `while (nodes_[i].parent != 0) i++` stops at `FirstFree`: the first parentless node from `from` on. |
| Huffman.Codec.Lighten | src/ballistica/generic/huffman.cc:526-537 | The scan loop returns the same picks as the reference scan `Scan` from the same start. |
| Huffman.Codec.Join | src/ballistica/generic/huffman.cc:538-543 | The table becomes `Adopt(old table, count, smallest1, smallest2)`. |
| Huffman.Codec.WriteCodes | src/ballistica/generic/huffman.cc:552-583 | The table becomes `Coded(shape)`: every leaf has the `val` and `bits` its place in the tree gives it, and nothing else changes. |
| Huffman.Codec.WriteCode | src/ballistica/generic/huffman.cc:554-582 | Leaf i ends with `val == CodeVal` and `bits == CodeLen`, through the literal fallback or the control bit. No other node changes. |
| Huffman.Codec.PathBits | src/ballistica/generic/huffman.cc:554-568 | The walk to the root leaves `bits` equal to the depth of leaf i, and `val` equal to its root path with the first turn below the root in bit 0, truncated to 16 bits. No other node changes. |
| Huffman.TruncatedShift | src/ballistica/generic/huffman.cc:560-563 | Truncating `val` to uint16_t after every shift is the same as truncating once at the end. |
| Huffman.ControlBit | src/ballistica/generic/huffman.cc:577-579 | A path shorter than 8 turns packs below 128, so `val << 1 \| 1` fits in 16 bits and equals 1 + 2 * path. |
| Huffman.Codec.Compress | src/ballistica/generic/huffman.cc:59-119 | A first byte with its top bit set is the error FlagBitSet, and that is the only error. Otherwise the result satisfies `IsCompressionOf` for the current table. |
| Huffman.Codec.CodeSize | src/ballistica/generic/huffman.cc:76-80 | bit_count is the length of the packet's encoding, the sum of the code lengths. |
| Huffman.Codec.Packet | src/ballistica/generic/huffman.cc:93-117 | The output has length_out bytes. Byte 0 is 128 + the padding count. The bits behind byte 0 are the encoding, then zeros. |
| Huffman.Codec.Emit | src/ballistica/generic/huffman.cc:104-108 | The DoWriteBits calls leave the encoding in the buffer from bit 8 on, with zeros after it. Byte 0 is untouched. The cursor ends 8 + B bits in. |
| Huffman.CursorEnd | src/ballistica/generic/huffman.cc:111-114 | The final cursor satisfies the asserts: ptr is length_out, or length_out - 1 with B mod 8 != 0, and bit == B mod 8. |
| Huffman.SetFlag | src/ballistica/generic/huffman.cc:117 | `out[0] \|= 1 << 7` on a header below 8 adds 128. |
| Huffman.Flagged | src/ballistica/generic/huffman.cc:117 | Changing byte 0 keeps the payload bits. |
| Huffman.Codec.Decompress | src/ballistica/generic/huffman.cc:133-225 | The loop over the bit cursor returns exactly `Wire.Decompress(nodes, src)`: each error case, the passthrough, and the decoded bytes. |
| Huffman.Codec.WalkDown | src/ballistica/generic/huffman.cc:161-201 | The walk from node 510 returns exactly `Walk`: the decoded byte and the cursor after its code, or WalkOverrun before any read past bit_length. |
| HuffmanTree.Seeded | src/ballistica/generic/huffman.cc:486-516 | The seeded table can start the merge loop at node_count 256: it satisfies the loop invariant `Growing`, with all 256 leaves parentless and no parent from slot 256 on. Leaf i has frequency freqs[i], and every other field is blank. |
| HuffmanTree.FirstFree | src/ballistica/generic/huffman.cc:520-524 | The first parentless node at or after i: nothing in between is parentless, and one fewer parentless node remains after it. |
| HuffmanTree.Pick | src/ballistica/generic/huffman.cc:527-536 | The tie-break of one scan step. A node with a parent changes nothing, and node i replaces at most one pick. It replaces smallest1 exactly when smallest1 is strictly heavier than smallest2 and i is strictly lighter than smallest1. It replaces smallest2 exactly when smallest1 is no heavier than smallest2, ties included, and i is strictly lighter than smallest2. That the picks stay the two lightest is `ScanStep`. |
| HuffmanTree.Scan | src/ballistica/generic/huffman.cc:526-537 | The scan ends with two distinct parentless nodes below node_count. |
| HuffmanTree.ScanStep | src/ballistica/generic/huffman.cc:527-536 | One scan step keeps the picks the two lightest parentless nodes seen so far. |
| HuffmanTree.ScanLightest | src/ballistica/generic/huffman.cc:526-537 | Scanning from i on keeps the picks lightest, so they end lightest below node_count. |
| HuffmanTree.SelectTwo | src/ballistica/generic/huffman.cc:517-537 | The two picks are distinct, parentless and below node_count. |
| HuffmanTree.SelectTwoLightest | src/ballistica/generic/huffman.cc:519-537 | No other parentless node below node_count is lighter than either pick. |
| HuffmanTree.AdoptSlots | src/ballistica/generic/huffman.cc:538-545 | Node count gets the summed frequency, right child smallest1 and left child smallest2. Both picks get parent count - 255. Every other slot is unchanged. |
| HuffmanTree.Merge | src/ballistica/generic/huffman.cc:516-545 | One merge keeps the loop invariant one node further: there is one fewer parentless node and none from slot count + 1 on. |
| HuffmanTree.MergeCounts | src/ballistica/generic/huffman.cc:538-545 | Giving the two parentless picks a parent in node count moves the invariant from count to count + 1. |
| HuffmanTree.Stage | src/ballistica/generic/huffman.cc:516-546 | After k turns the table holds 256 + k nodes, of which 256 - k are parentless, and no later slot has a parent. |
| HuffmanTree.AdoptInternal | src/ballistica/generic/huffman.cc:538-545 | Every merged node, old and new, has two distinct older children that point back at it, and their summed frequency. |
| HuffmanTree.AdoptLinked | src/ballistica/generic/huffman.cc:540-541 | Every stored parent still decodes to a newer node that has the node as a child. |
| HuffmanTree.MergeShaped | src/ballistica/generic/huffman.cc:516-545 | A merge keeps the forest shape and leaves the leaf frequencies alone. |
| HuffmanTree.StageShaped | src/ballistica/generic/huffman.cc:516-546 | Every stage of the loop is a forest over its nodes with the leaf frequencies kept. |
| HuffmanTree.FinishedTree | src/ballistica/generic/huffman.cc:546-549 | When the loop is done, node 510 has no parent and nodes 0..509 all have one. This is the asserts of lines 548-549. |
| HuffmanTree.MergedTreeValid | src/ballistica/generic/huffman.cc:481-549 | The merge loop builds a valid tree rooted at 510 over the 256 leaves and keeps their frequencies. |
| HuffmanTree.ParentAbove | src/ballistica/generic/huffman.cc:559-567 | The stored parent + 255 is a newer node that has the node as its left or right child. |
| HuffmanTree.LeafDepth | src/ballistica/generic/huffman.cc:552-583 | Every leaf is below the root, so its code has 2 to 9 bits. |
| HuffmanTree.CodeBits | src/ballistica/generic/huffman.cc:552-583 | Bit 0 of `val` is the control flag: 1 for a tree code, 0 for a literal. The `bits` bits of `val`, least significant first, are a 1 and the root path when the path is shorter than 8, else a 0 and the 8 bits of i. `val` fits in 16 bits. |
| HuffmanTree.SameShapeValid | src/ballistica/generic/huffman.cc:552-583 | Changing only `val` and `bits` keeps a valid tree valid. |
| HuffmanTree.SameShapePath | src/ballistica/generic/huffman.cc:552-583 | Changing only `val` and `bits` keeps every root path. |
| HuffmanTree.CodedShape | src/ballistica/generic/huffman.cc:552-583 | The code table has the tree's links and frequencies. |
| HuffmanTree.CodedCodes | src/ballistica/generic/huffman.cc:552-583 | Every leaf of the code table carries the code of its own root path. |
| HuffmanTree.BuiltTableValid | src/ballistica/generic/huffman.cc:481-586 | What build leaves is a valid codec table that keeps the given leaf frequencies. |
| HuffmanTree.DescendSnoc | src/ballistica/generic/huffman.cc:170-187 | One more turn of the walk goes to the left or right child. |
| HuffmanTree.DescendRootPath | src/ballistica/generic/huffman.cc:165-195 | Following a node's root path from 510 leads to that node. |
| HuffmanTree.RootPathInternal | src/ballistica/generic/huffman.cc:165-195 | Every node passed on the way down to a leaf is a merged node. |
| Wire.BitAtBit | src/ballistica/generic/huffman.cc:157 | `(ptr[bit / 8] >> (bit % 8)) & 0x01`, the read of lines 157 and 168, is bit bit % 8 of byte bit / 8. |
| Wire.CodeMeaning | src/ballistica/generic/huffman.cc:552-583 | The bits DoWriteBits emits for a byte are 2 to 9 long. They are a 1 and its root path, or a 0 and its own 8 bits. |
| Wire.EncodingLength | src/ballistica/generic/huffman.cc:76-80 | A packet of n bytes codes to between 2n and 9n bits. |
| Wire.EncodingPrefix | src/ballistica/generic/huffman.cc:104-108 | The codes of a prefix of the packet are a prefix of its codes. |
| Wire.EncodingSnoc | src/ballistica/generic/huffman.cc:104-108 | Coding one more byte appends its code. |
| Wire.PaddingFills | src/ballistica/generic/huffman.cc:82-102 | The header's padding count is below 8, and with it the codes fill length_out - 1 whole bytes. |
| Wire.CompressionMarked | src/ballistica/generic/huffman.cc:82-117 | The output is never longer than src. Its top bit is set exactly when ceil(B/8) + 1 < length, and then it is strictly shorter, with the padding count in the low bits of byte 0. |
| Wire.ChildOf | src/ballistica/generic/huffman.cc:170-195 | In a built tree a node has no children exactly when it is a leaf, and a merged node's children are older than it. |
| Wire.Literal | src/ballistica/generic/huffman.cc:204-211 | The read succeeds exactly when 8 bits remain in the buffer, and otherwise fails with LiteralOutOfRange. These are the guards of lines 206 and 209. |
| Wire.LiteralBits | src/ballistica/generic/huffman.cc:204-211 | The byte read is the 8 buffer bits from the cursor on. |
| Wire.LiteralAligned | src/ballistica/generic/huffman.cc:205-207 | On a byte boundary the literal is that byte. |
| Wire.LiteralSpliced | src/ballistica/generic/huffman.cc:208-211 | Off a boundary, `(lo >> k) \| (hi << (8 - k))` cast to uint8_t is the 8 bits from the cursor on. |
| Wire.Walk | src/ballistica/generic/huffman.cc:161-201 | The guarded walk fails only with WalkOverrun. On success its cursor lies between the start and bit_length, and past the start when the walk starts at a merged node. |
| Wire.Run | src/ballistica/generic/huffman.cc:156-220 | The main loop fails only with a literal, overrun or length error. Each decoded byte takes at least 2 bits. |
| Wire.Decompress | src/ballistica/generic/huffman.cc:133-225 | Empty input is an error. A clear top bit returns the input. A remainder above (length - 1) * 8 is BadRemainder. The output has at most 4 bytes per payload byte. No read past the buffer can happen: Dafny checks every index that `BitAt` and `Literal` make, and each payload read is guarded by `bit < bit_length`. |
| Wire.WalkAsWritten | src/ballistica/generic/huffman.cc:161-201 | On success the walk as written leaves its cursor between the start and bit_length + 1, one bit further than the guarded walk can go. |
| Wire.RunAsWritten | src/ballistica/generic/huffman.cc:156-220 | The main loop as written, calling the walk as written. It fails with a literal, overrun or length error, or with ReadPastEnd. Each decoded byte takes at least 2 bits. What it decodes is pinned down by PeekPastEnd, RunAgrees and RunOkAsWritten. |
| Wire.DecompressAsWritten | src/ballistica/generic/huffman.cc:133-225 | The decoder exactly as the code has it. Empty input is an error, a clear top bit returns the input, and a remainder above (length - 1) * 8 is BadRemainder. The output has at most 4 bytes per payload byte. PeekPastEnd, DecompressAgrees and RoundTripAsWritten pin down its results. |
| Wire.ProbeBits | src/ballistica/generic/huffman.cc:157 | The payload of the probe packet has 63 zero bits, then a 1. |
| Wire.ProbeLiterals | src/ballistica/generic/huffman.cc:204-211 | Each of the probe's seven literals passes the guards and reads as 0. |
| Wire.ProbeStep | src/ballistica/generic/huffman.cc:202-217 | Both decoders take the probe's literal k as a 0 byte and advance 9 bits. |
| Wire.ProbeRuns | src/ballistica/generic/huffman.cc:156-218 | Both decoders reach bit 63 of the probe with seven 0 bytes. |
| Wire.PeekPastEnd | src/ballistica/generic/huffman.cc:168 | With any tree, the decoder as written reads byte 9 of the 9-byte probe packet. The guarded decoder rejects the packet with WalkOverrun. |
| Wire.WalkAgrees | src/ballistica/generic/huffman.cc:161-201 | Where the guarded walk succeeds the walk as written gives the same result. Where only the walk as written succeeds, it stopped at bit_length + 1. |
| Wire.RunAgrees | src/ballistica/generic/huffman.cc:156-220 | Unless the loop as written reads past the buffer, both loops succeed or fail together, with the same bytes. |
| Wire.DecompressAgrees | src/ballistica/generic/huffman.cc:133-225 | On every packet where the code as written stays inside the buffer, the guarded decoder succeeds exactly when it does, with the same output. |
| Wire.WalkStep | src/ballistica/generic/huffman.cc:170-195 | One step down from a merged node goes to an older child, and stops there if that child is a leaf. |
| Wire.WalkReaches | src/ballistica/generic/huffman.cc:161-201 | When the buffer holds a leaf's root path, the walk from 510 ends at that leaf, right after the path. |
| Wire.DecodeLiteral | src/ballistica/generic/huffman.cc:202-217 | A 0 and the 8 bits of c are read back as c. |
| Wire.DecodePath | src/ballistica/generic/huffman.cc:160-201 | A 1 and the root path of leaf c are read back as c. |
| Wire.DecodeOne | src/ballistica/generic/huffman.cc:156-218 | The code of c at the cursor is read back as c, and the cursor moves past the code. |
| Wire.RunDecodes | src/ballistica/generic/huffman.cc:156-221 | A buffer holding the codes of rest from the cursor on, up to bit_length, decodes to rest. |
| Wire.RoundTrip | src/ballistica/generic/huffman.cc:59-225 | For every non-empty packet with first byte below 128 and every valid table, decompressing what compress produces gives back the packet. |
| Wire.WalkOkAsWritten | src/ballistica/generic/huffman.cc:161-201 | Wherever the guarded walk succeeds, the walk as written starts within bit_length and gives the same byte and cursor. The peek of line 168 then stays inside the buffer. |
| Wire.RunOkAsWritten | src/ballistica/generic/huffman.cc:156-220 | Wherever the guarded main loop succeeds, the loop as written gives the same bytes. |
| Wire.RoundTripAsWritten | src/ballistica/generic/huffman.cc:59-225 | The decoder exactly as written also gives back every packet compress accepts, for every valid table. Only a packet compress never produces can reach the read past the buffer. |

## Left out

- Training mode (lines 18-20, 441-479) is left out. It gathers byte
  statistics offline and is compiled out.
- The pruning branch (lines 489-505) is left out because it is switched
  off: it is the `#else` of `#if 1`. It would zero the frequency of every
  byte that more than 15 other bytes outweigh, so that only about the 15
  largest frequencies shape the tree.
- The `#if 0` versions of compress and decompress (lines 233-439) are
  left out as dead code.
- The `!BA_HUFFMAN_NET_COMPRESSION` branches (lines 120-128, 227-230) are
  left out. They are a stub for a configuration that is not built.
- `Exception`, `BA_PRECONDITION` and `assert` are not modelled as
  mechanisms:
  - A precondition or a throw on packet data becomes an `Err` of
    `Wire.Error`.
  - A precondition on the caller becomes a `requires`: compress needs a
    non-empty packet, because it reads `data[0]` without a check.
  - An `assert` becomes a proved `assert` or a lemma, such as
    `FinishedTree` or `CursorEnd`.
- The two walk preconditions (lines 164 and 166) are not modelled as
  errors. They hold for every built table, and `WalkDown` asserts
  them.
- The `reserve` hint at line 147 is left out; it only affects memory.
- `huffman.h` is not part of this model. The defaults of `Node` (parent
  0, children -1, frequency 0) become the blank node `Blank`. `Build`
  requires a blank table, and the constructor allocates one.
- The values of g_freqs are not used in any proof. `Build` and every
  lemma hold for any table of 256 natural frequencies. The model does
  not compute which bytes of g_freqs fall back to literals.
- Widths of integers:
  - Frequencies are unbounded naturals, so the `int` sum at lines
    538-539 is not checked for overflow.
  - `bit_count`, `length_out`, `bit_length` and `bit` are unbounded, so
    the 32-bit wrap-around is not modelled. In compress, `bit_count`
    (lines 76-80) sums up to 9 bits per byte. It can pass 2^32 from
    ceil(2^32 / 9) = 477,218,589 bytes, about 455 MiB. In decompress,
    `(length - 1) * 8` (line 149) wraps at about 512 MiB.
  - `val` is taken to be a 16-bit unsigned field, as the casts at
    lines 560, 575 and 577 indicate. Every store to it is reduced
    `% 65536`, including the uncast shift at line 563.
  - The uint8_t and int16_t casts of parents and children at lines
    540-543 never truncate, because their values are in range.
- `char` signedness is left out. Bytes are 0..255, and the top-bit test
  of line 73 is `src[0] < 128`.
- The cursor of `DoWriteBits` (`char** ptr`, `int* bit`) is
  modelled as an index and a bit offset passed in and returned.
- The `out` vector is a `seq<byte>`, and `push_back` appends to it.
- Huffman.Codec.Decompress, Huffman.Codec.WalkDown: they model the
  guarded decoder, not the code as written. The code as written is
  modelled only as the functions `Wire.WalkAsWritten`,
  `Wire.RunAsWritten` and `Wire.DecompressAsWritten`. In the guarded
  walk the check of line 197 can never fire, because the guard before
  each read already keeps `bit` within `bit_length`.
- Wire.Run: its contract states only the error kinds and a length
  bound. What it decodes is pinned down by `RunDecodes`, `RoundTrip`
  and `RunAgrees`.
- The destructor (line 57) has no behaviour to model.

## Findings

| source | as written | input that shows it | evidently intended | confidence | as-written member | corrected member |
|---|---|---|---|---|---|---|
| src/ballistica/generic/huffman.cc:168 | The walk peeks `ptr[bit / 8]` before checking `bit` against `bit_length`. After a control bit of 1 in the last payload bit, with remainder 0, `bit / 8` is `length - 1`, one byte past the payload. The check at line 197 only runs after the read. Packets that compress produces never trigger the read, by `Wire.RoundTripAsWritten`: it takes a crafted packet. | `[0x80, 0, 0, 0, 0, 0, 0, 0, 0x80]` with any built table: it is compressed with no padding. Seven literal zero bytes fill bits 0-62, and bit 63 is a 1, so the walk reads `ptr[8]`, byte 9 of a 9-byte buffer. | Every read stays inside the buffer, as the comment at lines 131-132 and the fix at lines 188-191 ask. Stop with a decode error when no bit is left before peeking. | high; not executed | Wire.PeekPastEnd (about Wire.DecompressAsWritten) | Wire.Decompress, with Wire.DecompressAgrees and Huffman.Codec.Decompress |
