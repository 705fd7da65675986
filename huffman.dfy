// Huffman (src/ballistica/generic/huffman.cc): the codec object, whose
// 511-slot node table `build` fills in place, and the two packet
// operations over it. Each method is proved against the reference
// functions of HuffmanTree and Wire.
module Huffman {
  import opened BitOps
  import opened HuffmanTree
  import opened Wire

  /** `g_freqs` (lines 24-40): the built-in byte frequencies. */
  const GFreqs: seq<nat> := [
    101342, 9667, 3497, 1072, 0, 3793, 0, 0, 2815, 5235, 0, 0, 0, 3570, 0, 0,
    0, 1383, 0, 0, 0, 2970, 0, 0, 2857, 0, 0, 0, 0, 0, 0, 0,
    0, 1199, 0, 0, 0, 0, 0, 0, 0, 0, 0, 0, 0, 0, 0, 0,
    0, 0, 0, 0, 0, 0, 0, 0, 0, 0, 0, 0, 0, 0, 0, 1494,
    1974, 0, 0, 0, 0, 0, 0, 0, 0, 0, 0, 0, 0, 1351, 0, 0,
    0, 0, 0, 0, 0, 0, 0, 0, 0, 0, 0, 0, 0, 0, 0, 0,
    0, 0, 0, 0, 0, 0, 0, 0, 0, 0, 0, 0, 0, 0, 0, 0,
    0, 0, 0, 0, 0, 0, 0, 0, 0, 0, 0, 0, 0, 0, 0, 0,
    0, 0, 0, 0, 0, 0, 0, 0, 0, 0, 0, 0, 0, 0, 0, 0,
    0, 0, 0, 0, 0, 0, 0, 0, 0, 0, 0, 0, 0, 0, 0, 0,
    0, 0, 0, 0, 0, 0, 0, 0, 0, 0, 0, 0, 0, 0, 0, 0,
    0, 0, 0, 0, 0, 0, 0, 0, 0, 0, 0, 0, 0, 0, 0, 1475,
    0, 0, 0, 0, 0, 0, 0, 0, 0, 0, 0, 0, 0, 0, 0, 0,
    0, 0, 0, 0, 0, 0, 0, 0, 0, 0, 0, 0, 0, 0, 0, 0,
    0, 0, 0, 0, 0, 0, 0, 0, 0, 0, 0, 0, 0, 0, 0, 0,
    0, 0, 0, 0, 0, 0, 0, 0, 0, 0, 0, 0, 0, 0, 0, 0
  ]

  /** Storing one byte changes only that byte's bits. */
  lemma BitAtUpdate(s: seq<byte>, i: nat, v: byte, q: nat)
    requires i < |s| && q / 8 < |s|
    ensures BitAt(s[i := v], q) == if q / 8 == i then Bit(v, q % 8) else BitAt(s, q)
  {
    BitAtBit(s[i := v], q);
    BitAtBit(s, q);
  }

  /** `x | (c << b)` on a byte sets bit b when c is 1 and nothing else. */
  lemma SetBit(x: byte, c: nat, b: nat)
    requires c < 2 && b < 8
    ensures Or(x, Shl(c, b)) < 256
    ensures forall j :: 0 <= j < 8 ==> Bit(Or(x, Shl(c, b)), j) == (Bit(x, j) || (j == b && c == 1))
  {
    ShlOneBit(c, b);
    Pow2Monotone(b, 7);
    assert Pow2(7) == 128 && Pow2(8) == 256;
    OrBound(x, Shl(c, b), 8);
    forall j | 0 <= j < 8
      ensures Bit(Or(x, Shl(c, b)), j) == (Bit(x, j) || (j == b && c == 1))
    {
      OrBit(x, Shl(c, b), j);
      ShlBit(c, b, j);
      if b <= j {
        BitOfOneBit(c, j - b);
      }
    }
  }

  /** DoWriteBits (lines 42-50): ORs the low `valBits` bits of `val`, least
      significant first, into `buf` from bit `bit` of byte `ptr` on, and
      moves the cursor past them. */
  method DoWriteBits(buf: array<byte>, ptr: nat, bit: nat, val: nat, valBits: nat)
    returns (newPtr: nat, newBit: nat)
    requires bit < 8 && 8 * ptr + bit + valBits <= 8 * buf.Length
    modifies buf
    ensures newBit < 8 && 8 * newPtr + newBit == 8 * ptr + bit + valBits
    ensures forall i :: 0 <= i < ptr ==> buf[i] == old(buf[i])
    ensures forall q :: 0 <= q < 8 * buf.Length ==>
      BitAt(buf[..], q) ==
        (BitAt(old(buf[..]), q) ||
         (8 * ptr + bit <= q < 8 * ptr + bit + valBits && Bit(val, q - (8 * ptr + bit))))
  {
    ghost var start := 8 * ptr + bit;
    newPtr, newBit := ptr, bit;
    var srcBit := 0;
    while srcBit < valBits
      invariant srcBit <= valBits && newBit < 8
      invariant 8 * newPtr + newBit == start + srcBit
      invariant forall i :: 0 <= i < ptr ==> buf[i] == old(buf[i])
      invariant forall q :: 0 <= q < 8 * buf.Length ==>
        BitAt(buf[..], q) ==
          (BitAt(old(buf[..]), q) || (start <= q < start + srcBit && Bit(val, q - start)))
    {
      var c := Shr(val, srcBit) % 2;
      ShrBit(val, srcBit, 0);
      ghost var before := buf[..];
      SetBit(buf[newPtr], c, newBit);
      buf[newPtr] := Or(buf[newPtr], Shl(c, newBit));
      assert buf[..] == before[newPtr := buf[newPtr]];
      forall q | 0 <= q < 8 * buf.Length
        ensures BitAt(buf[..], q) ==
          (BitAt(old(buf[..]), q) || (start <= q < start + srcBit + 1 && Bit(val, q - start)))
      {
        BitAtUpdate(before, newPtr, buf[newPtr], q);
        BitAtBit(before, q);
      }
      if newBit == 7 {
        newPtr := newPtr + 1;
      }
      newBit := (newBit + 1) % 8;
      srcBit := srcBit + 1;
    }
  }

  /** `(2 * (p mod 2^16) + b) mod 2^16 == (2 * p + b) mod 2^16`: the
      uint16_t truncation of line 560 can be taken once at the end. */
  lemma TruncatedShift(p: nat, b: nat)
    ensures (2 * (p % 65536) + b) % 65536 == (2 * p + b) % 65536
  {
    var x := 2 * (p % 65536) + b;
    var k := 2 * (p / 65536);
    assert 2 * p + b == x + 65536 * k;
    ModShift(x, k);
  }

  lemma ModShift(x: nat, k: nat)
    ensures (x + 65536 * k) % 65536 == x % 65536
  {
    var a, c := x / 65536, x % 65536;
    assert x + 65536 * k == 65536 * (a + k) + c;
  }

  /** `header | (1 << 7)` on a header below 8 adds the compressed flag. */
  lemma SetFlag(header: byte)
    requires header < 8
    ensures Or(header, Shl(1, 7)) == header + 128
  {
    ShlOneBit(1, 7);
    assert Pow2(3) == 8 && Pow2(7) == 128;
    Pow2Monotone(3, 7);
    OrHighBit(header, 7);
  }

  /** A path shorter than the literal depth, with the control bit put
      in front: fits in 8 bits, so the uint16_t `val` keeps it whole. */
  lemma ControlBit(path: seq<bool>)
    requires |path| < LiteralDepth
    ensures Pack(path) < 128 && Pack(path) % 65536 == Pack(path)
    ensures Pack([true] + path) == 1 + 2 * Pack(path)
  {
    PackBound(path);
    Pow2Monotone(|path|, 7);
    assert Pow2(7) == 128;
    SmallMod(Pack(path));
    assert ([true] + path)[1..] == path;
  }

  lemma SmallMod(x: nat)
    requires x < 65536
    ensures x % 65536 == x
  {
  }

  /** Where the cursor stands after b bits of codes behind the header. */
  lemma CursorEnd(b: nat, ptr: nat, bit: nat)
    requires bit < 8 && 8 * ptr + bit == 8 + b
    ensures ptr == CompressedLength(b) || (ptr == CompressedLength(b) - 1 && b % 8 != 0)
    ensures bit == b % 8 && bit == b % 8 % 8
  {
  }

  /** Setting the top bit of byte 0 leaves the payload's bits alone. */
  lemma Flagged(s: seq<byte>, e: seq<bool>, out: seq<byte>)
    requires |s| >= 1 && |out| == |s| && out[1..] == s[1..]
    requires forall q :: 8 <= q < 8 * |s| ==> BitAt(s, q) == (q - 8 < |e| && e[q - 8])
    ensures forall q :: 0 <= q < 8 * (|out| - 1) ==> BitAt(out[1..], q) == (q < |e| && e[q])
  {
    forall q | 0 <= q < 8 * (|out| - 1)
      ensures BitAt(out[1..], q) == (q < |e| && e[q])
    {
      BitAtTail(s, q);
    }
  }

  /** Huffman: the node table and the `built` flag. */
  class Codec {
    const nodes: array<Node>
    var built: bool

    ghost predicate Valid()
      reads this, nodes
    {
      nodes.Length == NodeCount && built && ValidCodec(nodes[..])
    }

    /** Huffman::Huffman (lines 52-55): a table built from g_freqs. */
    constructor ()
      ensures Valid() && fresh(nodes)
      ensures nodes[..] == BuiltTable(GFreqs)
    {
      nodes := new Node[NodeCount](_ => Blank);
      built := false;
      new;
      Build(GFreqs);
      BuiltTableValid(GFreqs);
    }

    /** Huffman::build (lines 481-586), over a frequency table. */
    method Build(freqs: seq<nat>)
      requires |freqs| == LeafCount && !built
      requires nodes.Length == NodeCount && AllBlank(nodes[..])
      modifies this, nodes
      ensures built && nodes[..] == BuiltTable(freqs)
    {
      Seed(freqs);
      MergeAll(nodes[..], NodeCount - LeafCount);
      MergedTreeValid(freqs);
      assert nodes[509].parent != 0;
      assert nodes[510].parent == 0;
      WriteCodes(nodes[..]);
      built := true;
    }

    /** Lines 486-488: the leaves take their frequencies. */
    method Seed(freqs: seq<nat>)
      requires |freqs| == LeafCount
      requires nodes.Length == NodeCount && AllBlank(nodes[..])
      modifies nodes
      ensures nodes[..] == Seeded(freqs)
    {
      var i := 0;
      while i < LeafCount
        invariant 0 <= i <= LeafCount
        invariant forall j :: 0 <= j < NodeCount ==>
          nodes[j] == if j < i then Blank.(frequency := freqs[j]) else Blank
      {
        nodes[i] := nodes[i].(frequency := freqs[i]);
        i := i + 1;
      }
      assert nodes[..] == Seeded(freqs);
    }

    /** The merge loop of lines 516-546. */
    method MergeAll(ghost seeded: seq<Node>, ghost merges: nat)
      requires nodes.Length == NodeCount && nodes[..] == seeded && Growing(seeded, LeafCount)
      requires merges == NodeCount - LeafCount
      modifies nodes
      ensures nodes[..] == Stage(seeded, merges)
    {
      var count := LeafCount;
      ghost var k := 0;
      while count < NodeCount
        invariant count == LeafCount + k <= NodeCount
        invariant nodes[..] == Stage(seeded, k)
        decreases NodeCount - count
      {
        StageNext(seeded, k);
        MergeStep(count);
        count, k := count + 1, k + 1;
      }
      assert k == merges;
    }

    /** One turn of the merge loop (lines 517-545): pick the two lightest
        parentless nodes and make node `count` their parent. */
    method MergeStep(count: int)
      requires nodes.Length == NodeCount && Growing(nodes[..], count) && count < NodeCount
      modifies nodes
      ensures nodes[..] == Merge(old(nodes[..]), count)
    {
      var s1, s2 := Smallest(count);
      Join(count, s1, s2);
    }

    /** Lines 538-543: node `count` becomes the parent of the two picks. */
    method Join(count: int, smallest1: int, smallest2: int)
      requires nodes.Length == NodeCount
      requires 0 <= smallest1 < count < NodeCount && 0 <= smallest2 < count
      requires smallest1 != smallest2
      modifies nodes
      ensures nodes[..] == Adopt(old(nodes[..]), count, smallest1, smallest2)
    {
      nodes[count] := nodes[count].(frequency := nodes[smallest1].frequency + nodes[smallest2].frequency);
      nodes[smallest1] := nodes[smallest1].(parent := count - ParentOffset);
      nodes[smallest2] := nodes[smallest2].(parent := count - ParentOffset);
      nodes[count] := nodes[count].(rightChild := smallest1);
      nodes[count] := nodes[count].(leftChild := smallest2);
      AdoptSlots(old(nodes[..]), count, smallest1, smallest2);
    }

    /** The loop of lines 552-583 over the 256 leaves. */
    method WriteCodes(ghost shape: seq<Node>)
      requires nodes.Length == NodeCount && ValidTree(shape) && nodes[..] == shape
      modifies nodes
      ensures nodes[..] == Coded(shape)
    {
      var i := 0;
      while i < LeafCount
        invariant 0 <= i <= LeafCount
        invariant forall j :: 0 <= j < i ==>
          nodes[j] == shape[j].(val := CodeVal(shape, j), bits := CodeLen(shape, j))
        invariant forall j :: i <= j < NodeCount ==> nodes[j] == shape[j]
      {
        WriteCode(i, shape);
        i := i + 1;
      }
      assert forall j :: 0 <= j < NodeCount ==> nodes[..][j] == Coded(shape)[j];
    }

    /** The selection of lines 517-537: the first two parentless nodes,
        then the scan that replaces the heavier pick by a lighter node. */
    method Smallest(count: int) returns (smallest1: int, smallest2: int)
      requires nodes.Length == NodeCount && Growing(nodes[..], count) && count < NodeCount
      ensures (smallest1, smallest2) == SelectTwo(nodes[..], count)
    {
      var first := FirstUnparented(0, count);
      var second := FirstUnparented(first + 1, count);
      smallest1, smallest2 := Lighten(count, second + 1, first, second);
    }

    /** The scan of lines 526-537 from node `from` on, starting with the
        picks s1 and s2. */
    method Lighten(count: int, from: int, s1: int, s2: int) returns (smallest1: int, smallest2: int)
      requires nodes.Length == NodeCount && count <= NodeCount
      requires 0 <= s1 < from <= count && 0 <= s2 < from && s1 != s2
      requires nodes[s1].parent == 0 && nodes[s2].parent == 0
      ensures (smallest1, smallest2) == Scan(nodes[..], count, from, s1, s2)
    {
      ghost var t := nodes[..];
      smallest1, smallest2 := s1, s2;
      var i := from;
      while i < count
        invariant 0 <= smallest1 < i <= count && 0 <= smallest2 < i && smallest1 != smallest2
        invariant t[smallest1].parent == 0 && t[smallest2].parent == 0
        invariant Scan(t, count, i, smallest1, smallest2) == Scan(t, count, from, s1, s2)
        decreases count - i
      {
        if nodes[i].parent == 0 {
          if nodes[smallest1].frequency > nodes[smallest2].frequency {
            if nodes[i].frequency < nodes[smallest1].frequency {
              smallest1 := i;
            }
          } else {
            if nodes[i].frequency < nodes[smallest2].frequency {
              smallest2 := i;
            }
          }
        }
        i := i + 1;
      }
    }

    /** `while (nodes_[i].parent != 0) i++;` (lines 520 and 523). */
    method FirstUnparented(from: int, count: int) returns (i: int)
      requires nodes.Length == NodeCount && 0 <= from <= count <= NodeCount
      requires Free(nodes[..], from, count) >= 1
      ensures i == FirstFree(nodes[..], from, count)
    {
      ghost var first := FirstFree(nodes[..], from, count);
      i := from;
      while nodes[i].parent != 0
        invariant from <= i <= first
        decreases first - i
      {
        i := i + 1;
      }
    }

    /** The code of leaf i (lines 554-582): walk up to the root collecting
        one bit per turn, then add the control bit or fall back to the
        literal form. */
    method WriteCode(i: int, ghost shape: seq<Node>)
      requires nodes.Length == NodeCount && ValidTree(shape) && 0 <= i < LeafCount
      requires forall j :: 0 <= j < NodeCount ==>
        nodes[j].parent == shape[j].parent && nodes[j].leftChild == shape[j].leftChild &&
        nodes[j].rightChild == shape[j].rightChild
      modifies nodes
      ensures nodes[i] == old(nodes[i]).(val := CodeVal(shape, i), bits := CodeLen(shape, i))
      ensures forall j :: 0 <= j < NodeCount && j != i ==> nodes[j] == old(nodes[j])
    {
      PathBits(i, shape);
      ghost var walked := RootPath(shape, i);
      if nodes[i].bits >= 8 {
        nodes[i] := nodes[i].(bits := 8, val := i * 2 % 65536);
      } else {
        ControlBit(walked);
        nodes[i] := nodes[i].(val := (nodes[i].val * 2 + 1) % 65536);
      }
      nodes[i] := nodes[i].(bits := nodes[i].bits + 1);
    }

    /** Lines 554-567: from leaf i up to the root, one bit per turn
        shifted in at the bottom of the 16-bit `val`. */
    method PathBits(i: int, ghost shape: seq<Node>)
      requires nodes.Length == NodeCount && ValidTree(shape) && 0 <= i < LeafCount
      requires forall j :: 0 <= j < NodeCount ==>
        nodes[j].parent == shape[j].parent && nodes[j].leftChild == shape[j].leftChild &&
        nodes[j].rightChild == shape[j].rightChild
      modifies nodes
      ensures nodes[i] == old(nodes[i]).(val := Pack(RootPath(shape, i)) % 65536,
                                          bits := |RootPath(shape, i)|)
      ensures forall j :: 0 <= j < NodeCount && j != i ==> nodes[j] == old(nodes[j])
    {
      nodes[i] := nodes[i].(val := 0, bits := 0);
      var index := i;
      ghost var walked: seq<bool> := [];
      while nodes[index].parent != 0
        invariant 0 <= index < NodeCount
        invariant nodes[i] == old(nodes[i]).(val := nodes[i].val, bits := nodes[i].bits)
        invariant nodes[i].val == Pack(walked) % 65536 && nodes[i].bits == |walked|
        invariant forall j :: 0 <= j < NodeCount && j != i ==> nodes[j] == old(nodes[j])
        invariant RootPath(shape, i) == RootPath(shape, index) + walked
        decreases NodeCount - index
      {
        var up := nodes[index].parent + ParentOffset;
        ParentAbove(shape, index);
        ghost var right := IsRight(shape, index);
        ghost var p := Pack(walked);
        assert right == (nodes[up].rightChild == index);
        if nodes[up].rightChild == index {
          TruncatedShift(p, 1);
          nodes[i] := nodes[i].(val := (nodes[i].val * 2 + 1) % 65536);
        } else {
          assert nodes[up].leftChild == index;
          TruncatedShift(p, 0);
          nodes[i] := nodes[i].(val := nodes[i].val * 2 % 65536);
        }
        nodes[i] := nodes[i].(bits := nodes[i].bits + 1);
        assert ([right] + walked)[1..] == walked;
        assert Pack([right] + walked) == (if right then 1 else 0) + 2 * p;
        assert RootPath(shape, index) == RootPath(shape, up) + [right];
        walked := [right] + walked;
        index := up;
      }
      assert walked == RootPath(shape, i);
    }

    /** Huffman::compress (lines 59-119): the packet itself when coding
        would not shrink it, else the header byte and the codes. */
    method Compress(src: seq<byte>) returns (r: Result<seq<byte>>)
      requires Valid() && |src| >= 1
      ensures r.Err? <==> src[0] >= 128
      ensures r.Err? ==> r.error == FlagBitSet
      ensures r.Ok? ==> IsCompressionOf(nodes[..], src, r.value)
    {
      if src[0] >= 128 {
        return Err(FlagBitSet);
      }
      ghost var e := Encoding(nodes[..], src);
      var bitCount := CodeSize(src);
      var lengthOut := bitCount / 8 + 1;
      if bitCount % 8 != 0 {
        lengthOut := lengthOut + 1;
      }
      assert lengthOut == CompressedLength(|e|);
      bitCount := bitCount % 8;
      if lengthOut >= |src| {
        return Ok(src);
      }
      var header := 8 - bitCount % 8;
      if header == 8 {
        header := 0;
      }
      var out := Packet(src, lengthOut, header);
      return Ok(out);
    }

    /** Lines 91-116: the header byte with the compressed flag, then the
        codes of src in a zeroed buffer of lengthOut bytes. */
    method Packet(src: seq<byte>, lengthOut: nat, header: byte) returns (out: seq<byte>)
      requires Valid()
      requires lengthOut == CompressedLength(|Encoding(nodes[..], src)|)
      requires header == Padding(|Encoding(nodes[..], src)|)
      ensures |out| == lengthOut && out[0] == 128 + header
      ensures forall q :: 0 <= q < 8 * (lengthOut - 1) ==>
        BitAt(out[1..], q) == (q < |Encoding(nodes[..], src)| && Encoding(nodes[..], src)[q])
    {
      ghost var t := nodes[..];
      ghost var e := Encoding(t, src);
      PaddingFills(|e|);
      var buf := new byte[lengthOut](_ => 0);
      buf[0] := header;
      var ptr, bit := Emit(buf, src);
      CursorEnd(|e|, ptr, bit);
      assert ptr == lengthOut || (ptr == lengthOut - 1 && |e| % 8 != 0);
      assert bit == |e| % 8 % 8;
      ghost var before := buf[..];
      SetFlag(header);
      buf[0] := Or(buf[0], Shl(1, 7));
      out := buf[..];
      assert out[1..] == before[1..];
      Flagged(before, e, out);
      assert nodes[..] == t;
    }

    /** Lines 78-81: the number of bits the codes of src take. */
    method CodeSize(src: seq<byte>) returns (bitCount: nat)
      requires Valid()
      ensures bitCount == |Encoding(nodes[..], src)|
    {
      bitCount := 0;
      var i := 0;
      while i < |src|
        invariant 0 <= i <= |src|
        invariant bitCount == |Encoding(nodes[..], src[..i])|
      {
        EncodingSnoc(nodes[..], src, i);
        assert LeafCoded(nodes[..], src[i]);
        bitCount := bitCount + nodes[src[i]].bits;
        i := i + 1;
      }
      assert src[..i] == src;
    }

    /** Lines 104-108: the codes of src, one after the other, from bit 0 of
        byte 1 of a zeroed buffer on. */
    method Emit(buf: array<byte>, src: seq<byte>) returns (ptr: nat, bit: nat)
      requires Valid() && buf.Length >= 1
      requires 8 + |Encoding(nodes[..], src)| <= 8 * buf.Length
      requires forall k :: 1 <= k < buf.Length ==> buf[k] == 0
      modifies buf
      ensures buf[0] == old(buf[0])
      ensures bit < 8 && 8 * ptr + bit == 8 + |Encoding(nodes[..], src)|
      ensures forall q :: 8 <= q < 8 * buf.Length ==>
        BitAt(buf[..], q) == (q - 8 < |Encoding(nodes[..], src)| && Encoding(nodes[..], src)[q - 8])
    {
      ghost var t := nodes[..];
      forall q | 8 <= q < 8 * buf.Length
        ensures !BitAt(buf[..], q)
      {
        BitAtBit(buf[..], q);
        BitOfZero(q % 8);
      }
      ptr, bit := 1, 0;
      var i := 0;
      while i < |src|
        invariant 0 <= i <= |src|
        invariant bit < 8 && 8 * ptr + bit == 8 + |Encoding(t, src[..i])|
        invariant buf[0] == old(buf[0])
        invariant forall q :: 8 <= q < 8 * buf.Length ==>
          BitAt(buf[..], q) == (q - 8 < |Encoding(t, src[..i])| && Encoding(t, src[..i])[q - 8])
      {
        ghost var e := Encoding(t, src[..i]);
        ghost var code := Code(t, src[i]);
        EncodingSnoc(t, src, i);
        EncodingPrefix(t, src, i + 1);
        ghost var start := 8 * ptr + bit;
        ghost var before := buf[..];
        assert LeafCoded(t, src[i]);
        ptr, bit := DoWriteBits(buf, ptr, bit, nodes[src[i]].val, nodes[src[i]].bits);
        forall q | 8 <= q < 8 * buf.Length
          ensures BitAt(buf[..], q) == (q - 8 < |e + code| && (e + code)[q - 8])
        {
          if |e| <= q - 8 < |e + code| {
            assert (e + code)[q - 8] == code[q - start];
          }
        }
        i := i + 1;
      }
      assert src[..i] == src;
    }

    /** Huffman::decompress (lines 133-225), with the peek of line 168
        guarded: the packet itself when its top bit is clear, else the
        bytes its codes stand for. */
    method Decompress(src: seq<byte>) returns (r: Result<seq<byte>>)
      requires Valid()
      ensures r == Wire.Decompress(nodes[..], src)
    {
      if |src| == 0 {
        return Err(EmptyInput);
      }
      var remainder := src[0] % 16;
      var compressed := src[0] >= 128;
      if !compressed {
        return Ok(src);
      }
      var bitLength := (|src| - 1) * 8;
      if remainder > bitLength {
        return Err(BadRemainder);
      }
      bitLength := bitLength - remainder;
      var payload := src[1..];
      ghost var t := nodes[..];
      var out: seq<byte> := [];
      var bit := 0;
      while bit < bitLength
        invariant bit <= bitLength <= 8 * |payload|
        invariant Run(t, payload, bitLength, bit, out) == Run(t, payload, bitLength, 0, [])
        decreases bitLength - bit
      {
        var bitval := BitAt(payload, bit);
        bit := bit + 1;
        if bitval {
          var w := WalkDown(payload, bitLength, bit);
          if w.Err? {
            return Err(w.error);
          }
          out := out + [w.value.0];
          bit := w.value.1;
        } else {
          var v: byte;
          if bit % 8 == 0 {
            if bit / 8 >= |src| - 1 {
              return Err(LiteralOutOfRange);
            }
            v := payload[bit / 8];
          } else {
            if bit / 8 + 1 >= |src| - 1 {
              return Err(LiteralOutOfRange);
            }
            v := Splice(payload[bit / 8], payload[bit / 8 + 1], bit % 8);
          }
          assert Literal(payload, bit) == Ok(v);
          out := out + [v];
          bit := bit + 8;
          if bit > bitLength {
            return Err(LiteralOverrun);
          }
        }
      }
      assert bit == bitLength;
      return Ok(out);
    }

    /** The inner loop of lines 161-201: down from the root, one bit per
        level, until a leaf; stops with WalkOverrun before reading a bit
        past the last one. */
    method WalkDown(payload: seq<byte>, bitLength: nat, from: nat) returns (r: Result<(byte, nat)>)
      requires Valid() && bitLength <= 8 * |payload|
      ensures r == Walk(nodes[..], payload, bitLength, Root, from)
    {
      ghost var t := nodes[..];
      var bit: nat := from;
      var n := Root;
      assert nodes[n].parent == 0;
      var val: int;
      while true
        invariant LeafCount <= n < NodeCount
        invariant Walk(t, payload, bitLength, n, bit) == Walk(t, payload, bitLength, Root, from)
        decreases n
      {
        if bit >= bitLength {
          return Err(WalkOverrun);
        }
        var bitval := BitAt(payload, bit);
        ChildOf(t, n, bitval);
        ChildOf(t, Child(t, n, bitval), bitval);
        if !bitval {
          if nodes[n].leftChild == -1 {
            val := n;
            break;
          } else {
            n := nodes[n].leftChild;
            bit := bit + 1;
          }
        } else {
          if nodes[n].rightChild == -1 {
            val := n;
            break;
          } else {
            n := nodes[n].rightChild;
            bit := bit + 1;
          }
        }
        if nodes[n].leftChild == -1 && nodes[n].rightChild == -1 {
          val := n;
          break;
        }
        assert bit <= bitLength;
      }
      return Ok((val % 256, bit));
    }
  }
}
