// The packet format of src/ballistica/generic/huffman.cc: what a
// compressed packet holds (Huffman::compress, lines 59-119) and how it is
// read back (Huffman::decompress, lines 133-225), as functions over byte
// strings.
module Wire {
  import opened BitOps
  import opened HuffmanTree

  /** Why compress or decompress gives up: a failed precondition or a
      thrown exception of the C++ code. */
  datatype Error =
    | FlagBitSet         // line 73: compress given a first byte with its top bit set
    | EmptyInput         // line 138: an empty buffer
    | BadRemainder       // line 150: more padding than payload bits
    | LiteralOutOfRange  // lines 206 and 209: the literal's bytes are missing
    | LiteralOverrun     // lines 215-216: a literal ends past the last bit
    | WalkOverrun        // lines 197-199: a code runs past the last bit
    | LengthMismatch     // line 220: decoding stopped beside the last bit
    | ReadPastEnd        // line 168 as written: a peek past the buffer's end

  datatype Result<T> = Ok(value: T) | Err(error: Error)

  /** Bit q of a byte string, bit 0 of each byte first, counted off one
      byte at a time; BitAtBit gives the C++ form. */
  function BitAt(s: seq<byte>, q: nat): bool
    requires q < 8 * |s|
    decreases q
  {
    if q < 8 then Shr(s[0], q) % 2 == 1 else BitAt(s[1..], q - 8)
  }

  /** `(ptr[q / 8] >> (q % 8)) & 0x01` is bit q % 8 of byte q / 8. */
  lemma {:induction false} BitAtBit(s: seq<byte>, q: nat)
    requires q / 8 < |s|
    ensures BitAt(s, q) == (Shr(s[q / 8], q % 8) % 2 == 1)
    ensures BitAt(s, q) == Bit(s[q / 8], q % 8)
    decreases q
  {
    if q < 8 {
      ShrBit(s[0], q, 0);
    } else {
      assert (q - 8) / 8 == q / 8 - 1 && (q - 8) % 8 == q % 8;
      BitAtBit(s[1..], q - 8);
    }
    ShrBit(s[q / 8], q % 8, 0);
  }

  // ---------------------------------------------------------------------
  // The compressed format

  /** The bits DoWriteBits emits for byte c: `bits` bits of `val`, least
      significant first. */
  function Code(t: seq<Node>, c: byte): seq<bool>
    requires ValidCodec(t)
  {
    assert LeafCoded(t, c);
    Bits(t[c].val, t[c].bits)
  }

  /** A code is a 1 and the root path of c, or a 0 and c's own 8 bits. */
  lemma CodeMeaning(t: seq<Node>, c: byte)
    requires ValidCodec(t)
    ensures 2 <= |Code(t, c)| <= 9
    ensures Code(t, c) == if |RootPath(t, c)| >= LiteralDepth then [false] + Bits(c, 8)
                          else [true] + RootPath(t, c)
  {
    assert LeafCoded(t, c);
    LeafDepth(t, c);
    CodeBits(t, c);
  }

  /** The bit string of a whole packet, one code after the other. */
  function Encoding(t: seq<Node>, src: seq<byte>): seq<bool>
    requires ValidCodec(t)
    decreases |src|
  {
    if src == [] then [] else Encoding(t, src[..|src| - 1]) + Code(t, src[|src| - 1])
  }

  /** Every byte costs 2 to 9 bits. */
  lemma {:induction false} EncodingLength(t: seq<Node>, src: seq<byte>)
    requires ValidCodec(t)
    ensures 2 * |src| <= |Encoding(t, src)| <= 9 * |src|
    decreases |src|
  {
    if src != [] {
      EncodingLength(t, src[..|src| - 1]);
      CodeMeaning(t, src[|src| - 1]);
    }
  }

  /** The encoding of a prefix is a prefix of the encoding. */
  lemma {:induction false} EncodingPrefix(t: seq<Node>, src: seq<byte>, k: nat)
    requires ValidCodec(t) && k <= |src|
    ensures |Encoding(t, src[..k])| <= |Encoding(t, src)|
    ensures Encoding(t, src)[..|Encoding(t, src[..k])|] == Encoding(t, src[..k])
    decreases |src|
  {
    if k < |src| {
      var init := src[..|src| - 1];
      assert init[..k] == src[..k];
      EncodingPrefix(t, init, k);
    } else {
      assert src[..k] == src;
    }
  }

  /** Adding one byte appends its code. */
  lemma EncodingSnoc(t: seq<Node>, src: seq<byte>, k: nat)
    requires ValidCodec(t) && k < |src|
    ensures Encoding(t, src[..k + 1]) == Encoding(t, src[..k]) + Code(t, src[k])
    ensures |Encoding(t, src[..k + 1])| == |Encoding(t, src[..k])| + |Code(t, src[k])|
  {
    assert src[..k + 1][..k] == src[..k];
  }

  /** Bytes needed for B payload bits plus the header (lines 82-85). */
  function CompressedLength(b: nat): nat
  {
    b / 8 + 1 + (if b % 8 != 0 then 1 else 0)
  }

  /** Unused bits in the last byte (lines 86, 99-102). */
  function Padding(b: nat): nat
  {
    if b % 8 == 0 then 0 else 8 - b % 8
  }

  lemma PaddingFills(b: nat)
    ensures Padding(b) < 8
    ensures b + Padding(b) == 8 * (CompressedLength(b) - 1)
  {
  }

  /** out is what compress returns for src: src itself when the packet
      would not shrink, else the header byte (compressed flag and padding)
      followed by the encoding, zero-filled to a whole byte. */
  predicate IsCompressionOf(t: seq<Node>, src: seq<byte>, out: seq<byte>)
    requires ValidCodec(t)
  {
    var e := Encoding(t, src);
    var len := CompressedLength(|e|);
    if len >= |src| then out == src
    else
      |out| == len && out[0] == 128 + Padding(|e|) &&
      forall q :: 0 <= q < 8 * (len - 1) ==> BitAt(out[1..], q) == (q < |e| && e[q])
  }

  /** Bit q of a packet's payload is bit q + 8 of the packet. */
  lemma BitAtTail(s: seq<byte>, q: nat)
    requires q / 8 + 1 < |s|
    ensures BitAt(s[1..], q) == BitAt(s, q + 8)
  {
  }

  /** A compressed packet is never longer than its source, and its top bit
      says whether it was compressed. */
  lemma CompressionMarked(t: seq<Node>, src: seq<byte>, out: seq<byte>)
    requires ValidCodec(t) && |src| >= 1 && src[0] < 128 && IsCompressionOf(t, src, out)
    ensures 1 <= |out| <= |src|
    ensures out[0] >= 128 <==> CompressedLength(|Encoding(t, src)|) < |src|
    ensures out[0] >= 128 ==> |out| < |src| && out[0] % 16 == Padding(|Encoding(t, src)|)
  {
    PaddingFills(|Encoding(t, src)|);
  }

  // ---------------------------------------------------------------------
  // Decoding, with the peek on line 168 guarded

  /** In a valid tree the leaves are exactly the nodes without children,
      and a merged node's children are older than it. */
  lemma ChildOf(t: seq<Node>, n: int, right: bool)
    requires ValidTree(t) && 0 <= n < NodeCount
    ensures IsLeaf(t, n) <==> n < LeafCount
    ensures n < LeafCount ==> Child(t, n, right) == -1
    ensures n >= LeafCount ==> 0 <= Child(t, n, right) < n
  {
    if n >= LeafCount {
      assert Internal(t, n);
    }
  }

  /** The 8 bits from position `bit` as one byte (lines 204-211): the
      next byte, or two bytes spliced when `bit` is not on a boundary. */
  function Literal(payload: seq<byte>, bit: nat): (r: Result<byte>)
    ensures r.Ok? <==> bit + 8 <= 8 * |payload|
    ensures r.Err? ==> r.error == LiteralOutOfRange
  {
    var q, k := bit / 8, bit % 8;
    if k == 0 then
      if q < |payload| then Ok(payload[q]) else Err(LiteralOutOfRange)
    else if q + 1 < |payload| then Ok(Splice(payload[q], payload[q + 1], k))
    else Err(LiteralOutOfRange)
  }

  /** The literal read at `bit` is the 8 packet bits from `bit` on. */
  lemma LiteralBits(payload: seq<byte>, bit: nat)
    ensures Literal(payload, bit).Ok? ==>
      forall j :: 0 <= j < 8 ==> Bit(Literal(payload, bit).value, j) == BitAt(payload, bit + j)
  {
    var q, k := bit / 8, bit % 8;
    if k == 0 && q < |payload| {
      LiteralAligned(payload, bit);
    } else if k != 0 && q + 1 < |payload| {
      LiteralSpliced(payload, bit, Splice(payload[q], payload[q + 1], k));
    }
  }

  /** `(lo >> k) | (hi << (8 - k))`, cast to `uint8_t`. */
  function Splice(lo: byte, hi: byte, k: nat): byte
    requires k <= 8
  {
    Or(Shr(lo, k), Shl(hi, 8 - k)) % 256
  }

  lemma LiteralAligned(payload: seq<byte>, bit: nat)
    requires bit % 8 == 0 && bit / 8 < |payload|
    ensures forall j :: 0 <= j < 8 ==> Bit(payload[bit / 8], j) == BitAt(payload, bit + j)
  {
    forall j | 0 <= j < 8
      ensures Bit(payload[bit / 8], j) == BitAt(payload, bit + j)
    {
      assert (bit + j) / 8 == bit / 8 && (bit + j) % 8 == j;
      BitAtBit(payload, bit + j);
    }
  }

  lemma LiteralSpliced(payload: seq<byte>, bit: nat, w: byte)
    requires bit % 8 != 0 && bit / 8 + 1 < |payload|
    requires w == Splice(payload[bit / 8], payload[bit / 8 + 1], bit % 8)
    ensures forall j :: 0 <= j < 8 ==> Bit(w, j) == BitAt(payload, bit + j)
  {
    var q, k := bit / 8, bit % 8;
    var a, b := payload[q], payload[q + 1];
    var v := Or(Shr(a, k), Shl(b, 8 - k));
    forall j | 0 <= j < 8
      ensures Bit(v % 256, j) == BitAt(payload, bit + j)
    {
      ModByteBit(v, j);
      OrBit(Shr(a, k), Shl(b, 8 - k), j);
      ShrBit(a, k, j);
      ShlBit(b, 8 - k, j);
      BitAtBit(payload, bit + j);
      if j + k < 8 {
        assert (bit + j) / 8 == q && (bit + j) % 8 == j + k;
      } else {
        assert (bit + j) / 8 == q + 1 && (bit + j) % 8 == j + k - 8;
        assert Pow2(8) == 256;
        BitAboveWidth(a, 8, j + k);
      }
    }
  }

  /** The tree walk of lines 161-201 from node n at bit position `bit`,
      reading a bit only while one remains: the decoded byte and the
      position after its code. */
  function Walk(t: seq<Node>, payload: seq<byte>, bitLength: nat, n: int, bit: nat)
    : (r: Result<(byte, nat)>)
    requires ValidTree(t) && 0 <= n < NodeCount && bitLength <= 8 * |payload|
    ensures r.Ok? ==> bit <= r.value.1 <= bitLength
    ensures r.Ok? && n >= LeafCount ==> bit < r.value.1
    ensures r.Err? ==> r.error == WalkOverrun
    decreases n
  {
    if bit >= bitLength then Err(WalkOverrun)
    else
      var c := Child(t, n, BitAt(payload, bit));
      ChildOf(t, n, BitAt(payload, bit));
      if c == -1 then Ok((n % 256, bit))
      else if IsLeaf(t, c) then Ok((c % 256, bit + 1))
      else Walk(t, payload, bitLength, c, bit + 1)
  }

  /** The main loop of lines 156-218 from position `bit`, having decoded
      `out` so far, and the final check of line 220. */
  function Run(t: seq<Node>, payload: seq<byte>, bitLength: nat, bit: nat, out: seq<byte>)
    : (r: Result<seq<byte>>)
    requires ValidTree(t) && bitLength <= 8 * |payload|
    ensures r.Ok? ==> |out| <= |r.value|
    ensures r.Ok? ==> 2 * (|r.value| - |out|) <= bitLength - bit
    ensures r.Err? ==> r.error.LiteralOutOfRange? || r.error.LiteralOverrun? ||
                       r.error.WalkOverrun? || r.error.LengthMismatch?
    decreases bitLength - bit
  {
    if bit >= bitLength then
      if bit == bitLength then Ok(out) else Err(LengthMismatch)
    else if BitAt(payload, bit) then
      match Walk(t, payload, bitLength, Root, bit + 1)
      case Err(e) => Err(e)
      case Ok(w) => Run(t, payload, bitLength, w.1, out + [w.0])
    else
      match Literal(payload, bit + 1)
      case Err(e) => Err(e)
      case Ok(v) =>
        if bit + 9 > bitLength then Err(LiteralOverrun)
        else Run(t, payload, bitLength, bit + 9, out + [v])
  }

  /** Huffman::decompress with the peek of line 168 guarded. */
  function Decompress(t: seq<Node>, src: seq<byte>): (r: Result<seq<byte>>)
    requires ValidTree(t)
    ensures r == Err(EmptyInput) <==> |src| == 0
    ensures |src| > 0 && src[0] < 128 ==> r == Ok(src)
    ensures |src| > 0 && src[0] >= 128 ==>
      (r == Err(BadRemainder) <==> src[0] % 16 > 8 * (|src| - 1))
    ensures |src| > 0 && src[0] >= 128 && r.Ok? ==> 2 * |r.value| <= 8 * (|src| - 1)
    ensures r != Err(ReadPastEnd)
  {
    if |src| == 0 then Err(EmptyInput)
    else if src[0] < 128 then Ok(src)
    else
      var remainder := src[0] % 16;
      var bitLength := (|src| - 1) * 8;
      if remainder > bitLength then Err(BadRemainder)
      else Run(t, src[1..], bitLength - remainder, 0, [])
  }

  // ---------------------------------------------------------------------
  // Decoding as written

  /** The tree walk exactly as lines 161-201 have it: the peek of line 168
      happens even at bit == bitLength, where the index can be one past
      the buffer; that read is the error ReadPastEnd here. */
  function WalkAsWritten(t: seq<Node>, payload: seq<byte>, bitLength: nat, n: int, bit: nat)
    : (r: Result<(byte, nat)>)
    requires ValidTree(t) && 0 <= n < NodeCount && bitLength <= 8 * |payload| && bit <= bitLength
    ensures r.Ok? ==> bit <= r.value.1 <= bitLength + 1
    ensures r.Ok? && n >= LeafCount ==> bit < r.value.1
    ensures r.Err? ==> r.error == ReadPastEnd || r.error == WalkOverrun
    decreases n
  {
    if bit / 8 >= |payload| then Err(ReadPastEnd)
    else
      var c := Child(t, n, BitAt(payload, bit));
      ChildOf(t, n, BitAt(payload, bit));
      if c == -1 then Ok((n % 256, bit))
      else if IsLeaf(t, c) then Ok((c % 256, bit + 1))
      else if bit + 1 > bitLength then Err(WalkOverrun)
      else WalkAsWritten(t, payload, bitLength, c, bit + 1)
  }

  /** The main loop of lines 156-218 and the check of line 220, calling
      the walk as written. */
  function RunAsWritten(t: seq<Node>, payload: seq<byte>, bitLength: nat, bit: nat, out: seq<byte>)
    : (r: Result<seq<byte>>)
    requires ValidTree(t) && bitLength <= 8 * |payload|
    ensures r.Ok? ==> |out| <= |r.value|
    ensures r.Ok? ==> 2 * (|r.value| - |out|) <= bitLength - bit
    ensures r.Err? ==> r.error.LiteralOutOfRange? || r.error.LiteralOverrun? ||
                       r.error.WalkOverrun? || r.error.LengthMismatch? || r.error.ReadPastEnd?
    decreases bitLength - bit
  {
    if bit >= bitLength then
      if bit == bitLength then Ok(out) else Err(LengthMismatch)
    else if BitAt(payload, bit) then
      match WalkAsWritten(t, payload, bitLength, Root, bit + 1)
      case Err(e) => Err(e)
      case Ok(w) => RunAsWritten(t, payload, bitLength, w.1, out + [w.0])
    else
      match Literal(payload, bit + 1)
      case Err(e) => Err(e)
      case Ok(v) =>
        if bit + 9 > bitLength then Err(LiteralOverrun)
        else RunAsWritten(t, payload, bitLength, bit + 9, out + [v])
  }

  /** Huffman::decompress exactly as lines 133-225 have it. */
  function DecompressAsWritten(t: seq<Node>, src: seq<byte>): (r: Result<seq<byte>>)
    requires ValidTree(t)
    ensures r == Err(EmptyInput) <==> |src| == 0
    ensures |src| > 0 && src[0] < 128 ==> r == Ok(src)
    ensures |src| > 0 && src[0] >= 128 ==>
      (r == Err(BadRemainder) <==> src[0] % 16 > 8 * (|src| - 1))
    ensures |src| > 0 && src[0] >= 128 && r.Ok? ==> 2 * |r.value| <= 8 * (|src| - 1)
  {
    if |src| == 0 then Err(EmptyInput)
    else if src[0] < 128 then Ok(src)
    else
      var remainder := src[0] % 16;
      var bitLength := (|src| - 1) * 8;
      if remainder > bitLength then Err(BadRemainder)
      else RunAsWritten(t, src[1..], bitLength - remainder, 0, [])
  }

  /** A 9-byte packet: compressed, no padding, 63 zero bits, then a 1. */
  const Probe: seq<byte> := [128, 0, 0, 0, 0, 0, 0, 0, 128]

  lemma ProbeBits()
    ensures forall q :: 0 <= q < 63 ==> !BitAt(Probe[1..], q)
    ensures BitAt(Probe[1..], 63)
  {
    var p := Probe[1..];
    assert p == [0, 0, 0, 0, 0, 0, 0, 128];
    forall q | 0 <= q < 63
      ensures !BitAt(p, q)
    {
      BitAtBit(p, q);
      if q < 56 {
        BitOfZero(q % 8);
      } else {
        assert !Bit(128, 0) && !Bit(128, 1) && !Bit(128, 2) && !Bit(128, 3);
        assert !Bit(128, 4) && !Bit(128, 5) && !Bit(128, 6);
      }
    }
    BitAtBit(p, 63);
  }

  /** The seven literals of Probe all pass the guards of lines 206-216. */
  lemma ProbeLiterals(k: nat)
    requires k < 7
    ensures Literal(Probe[1..], 9 * k + 1) == Ok(0)
  {
    var p := Probe[1..];
    ProbeBits();
    LiteralBits(p, 9 * k + 1);
    var v := Literal(p, 9 * k + 1).value;
    forall j | 0 <= j < 8
      ensures Bit(v, j) == Bit(0, j)
    {
      assert Bit(v, j) == BitAt(p, 9 * k + 1 + j);
      assert !BitAt(p, 9 * k + 1 + j);
      BitOfZero(j);
    }
    assert Pow2(8) == 256;
    BitsDetermine(v, 0, 8);
  }

  /** Both decoders take Probe's literal number k as a zero byte. */
  lemma ProbeStep(t: seq<Node>, k: nat)
    requires ValidTree(t) && k < 7
    ensures RunAsWritten(t, Probe[1..], 64, 9 * k, seq(k, _ => 0)) ==
            RunAsWritten(t, Probe[1..], 64, 9 * k + 9, seq(k + 1, _ => 0))
    ensures Run(t, Probe[1..], 64, 9 * k, seq(k, _ => 0)) ==
            Run(t, Probe[1..], 64, 9 * k + 9, seq(k + 1, _ => 0))
  {
    ProbeBits();
    assert seq(k, _ => 0) + [0] == seq(k + 1, _ => 0);
    assert !BitAt(Probe[1..], 9 * k);
    ProbeLiterals(k);
  }

  /** Both decoders take Probe's literals k..6 and arrive at bit 63. */
  lemma {:induction false} ProbeRuns(t: seq<Node>, k: nat)
    requires ValidTree(t) && k <= 7
    ensures RunAsWritten(t, Probe[1..], 64, 9 * k, seq(k, _ => 0)) ==
            RunAsWritten(t, Probe[1..], 64, 63, seq(7, _ => 0))
    ensures Run(t, Probe[1..], 64, 9 * k, seq(k, _ => 0)) ==
            Run(t, Probe[1..], 64, 63, seq(7, _ => 0))
    decreases 7 - k
  {
    if k < 7 {
      ProbeStep(t, k);
      ProbeRuns(t, k + 1);
    }
  }

  /** Seven literal zero bytes fill 63 bits; the 64th bit announces a
      Huffman code, and the walk's first peek reads byte 9 of the 9-byte
      packet Probe, whatever the tree. The guarded decoder rejects it. */
  lemma PeekPastEnd(t: seq<Node>)
    requires ValidTree(t)
    ensures DecompressAsWritten(t, Probe) == Err(ReadPastEnd)
    ensures Decompress(t, Probe) == Err(WalkOverrun)
  {
    ProbeBits();
    ProbeRuns(t, 0);
    assert seq(0, _ => 0) == [];
  }

  // ---------------------------------------------------------------------
  // The guarded decoder agrees with the code as written

  lemma {:induction false} WalkAgrees(t: seq<Node>, payload: seq<byte>, bitLength: nat, n: int, bit: nat)
    requires ValidTree(t) && LeafCount <= n < NodeCount && bitLength <= 8 * |payload|
    requires bit <= bitLength
    requires WalkAsWritten(t, payload, bitLength, n, bit) != Err(ReadPastEnd)
    ensures var a, g := WalkAsWritten(t, payload, bitLength, n, bit), Walk(t, payload, bitLength, n, bit);
      (g.Ok? ==> a == g) && (a.Ok? && !g.Ok? ==> a.value.1 == bitLength + 1)
    decreases n
  {
    if bit < bitLength {
      var c := Child(t, n, BitAt(payload, bit));
      ChildOf(t, n, BitAt(payload, bit));
      if c != -1 && !IsLeaf(t, c) {
        ChildOf(t, c, true);
        WalkAgrees(t, payload, bitLength, c, bit + 1);
      }
    } else {
      ChildOf(t, n, BitAt(payload, bit));
    }
  }

  lemma {:induction false} RunAgrees(t: seq<Node>, payload: seq<byte>, bitLength: nat, bit: nat, out: seq<byte>)
    requires ValidTree(t) && bitLength <= 8 * |payload|
    requires RunAsWritten(t, payload, bitLength, bit, out) != Err(ReadPastEnd)
    ensures var a, g := RunAsWritten(t, payload, bitLength, bit, out), Run(t, payload, bitLength, bit, out);
      a.Ok? == g.Ok? && (g.Ok? ==> a == g)
    decreases bitLength - bit
  {
    if bit < bitLength {
      if BitAt(payload, bit) {
        var a := WalkAsWritten(t, payload, bitLength, Root, bit + 1);
        WalkAgrees(t, payload, bitLength, Root, bit + 1);
        if a.Ok? {
          if !Walk(t, payload, bitLength, Root, bit + 1).Ok? {
            assert RunAsWritten(t, payload, bitLength, bit, out) == Err(LengthMismatch);
          } else {
            RunAgrees(t, payload, bitLength, a.value.1, out + [a.value.0]);
          }
        }
      } else {
        var v := Literal(payload, bit + 1);
        if v.Ok? && bit + 9 <= bitLength {
          RunAgrees(t, payload, bitLength, bit + 9, out + [v.value]);
        }
      }
    }
  }

  /** On every packet where the code as written stays inside the buffer,
      the guarded decoder succeeds exactly when it does, with the same
      bytes. */
  lemma DecompressAgrees(t: seq<Node>, src: seq<byte>)
    requires ValidTree(t)
    requires DecompressAsWritten(t, src) != Err(ReadPastEnd)
    ensures Decompress(t, src).Ok? == DecompressAsWritten(t, src).Ok?
    ensures Decompress(t, src).Ok? ==> Decompress(t, src) == DecompressAsWritten(t, src)
  {
    if |src| > 0 && src[0] >= 128 && src[0] % 16 <= (|src| - 1) * 8 {
      RunAgrees(t, src[1..], (|src| - 1) * 8 - src[0] % 16, 0, []);
    }
  }

  // ---------------------------------------------------------------------
  // Round trip

  /** One step of the walk below a merged node. */
  lemma WalkStep(t: seq<Node>, payload: seq<byte>, bitLength: nat, n: int, bit: nat)
    requires ValidTree(t) && LeafCount <= n < NodeCount && bitLength <= 8 * |payload|
    requires bit < bitLength
    ensures var c := Child(t, n, BitAt(payload, bit));
      0 <= c < n &&
      Walk(t, payload, bitLength, n, bit) ==
        if IsLeaf(t, c) then Ok((c, bit + 1)) else Walk(t, payload, bitLength, c, bit + 1)
  {
    var c := Child(t, n, BitAt(payload, bit));
    ChildOf(t, n, BitAt(payload, bit));
    ChildOf(t, c, true);
  }

  /** Reading a leaf's root path from the root reaches the leaf, one bit
      per turn, at the position right after the path. */
  lemma {:induction false} WalkReaches(t: seq<Node>, payload: seq<byte>, bitLength: nat,
                                       x: int, path: seq<bool>, start: nat, j: nat)
    requires ValidTree(t) && 0 <= x < LeafCount && bitLength <= 8 * |payload|
    requires path == RootPath(t, x)
    requires j < |path| && start + |path| <= bitLength
    requires forall i :: 0 <= i < |path| ==> BitAt(payload, start + i) == path[i]
    ensures LeafCount <= Descend(t, Root, path[..j]) < NodeCount
    ensures Walk(t, payload, bitLength, Descend(t, Root, path[..j]), start + j)
            == Ok((x, start + |path|))
    decreases |path| - j
  {
    var n := Descend(t, Root, path[..j]);
    RootPathInternal(t, x, j);
    assert BitAt(payload, start + j) == path[j];
    assert path[..j + 1] == path[..j] + [path[j]];
    DescendSnoc(t, Root, path[..j], path[j]);
    WalkStep(t, payload, bitLength, n, start + j);
    if j + 1 == |path| {
      assert path[..j + 1] == path;
      DescendRootPath(t, x);
      ChildOf(t, x, true);
    } else {
      WalkReaches(t, payload, bitLength, x, path, start, j + 1);
      ChildOf(t, Descend(t, Root, path[..j + 1]), true);
    }
  }

  /** The main loop's step over a Huffman code. */
  lemma RunCoded(t: seq<Node>, payload: seq<byte>, bitLength: nat, p: nat, c: byte, next: nat,
                 out: seq<byte>)
    requires ValidTree(t) && bitLength <= 8 * |payload| && p < bitLength
    requires BitAt(payload, p) && Walk(t, payload, bitLength, Root, p + 1) == Ok((c, next))
    ensures Run(t, payload, bitLength, p, out) == Run(t, payload, bitLength, next, out + [c])
  {
  }

  /** The main loop's step over a literal byte. */
  lemma RunLiteral(t: seq<Node>, payload: seq<byte>, bitLength: nat, p: nat, c: byte,
                   out: seq<byte>)
    requires ValidTree(t) && bitLength <= 8 * |payload| && p + 9 <= bitLength
    requires !BitAt(payload, p) && Literal(payload, p + 1) == Ok(c)
    ensures Run(t, payload, bitLength, p, out) == Run(t, payload, bitLength, p + 9, out + [c])
  {
  }

  /** A 0 followed by the 8 bits of c is read back as c. */
  lemma DecodeLiteral(t: seq<Node>, payload: seq<byte>, bitLength: nat, p: nat, c: byte,
                      next: nat, out: seq<byte>)
    requires ValidTree(t) && bitLength <= 8 * |payload| && next == p + 9 <= bitLength
    requires !BitAt(payload, p)
    requires forall i :: 0 <= i < 8 ==> BitAt(payload, p + 1 + i) == Bits(c, 8)[i]
    ensures Run(t, payload, bitLength, p, out) == Run(t, payload, bitLength, next, out + [c])
  {
    var v := Literal(payload, p + 1);
    LiteralBits(payload, p + 1);
    forall i | 0 <= i < 8
      ensures Bit(v.value, i) == Bit(c, i)
    {
      assert Bits(c, 8)[i] == Bit(c, i);
    }
    assert Pow2(8) == 256;
    BitsDetermine(v.value, c, 8);
    RunLiteral(t, payload, bitLength, p, c, out);
  }

  /** A 1 followed by the root path of leaf c is read back as c. */
  lemma DecodePath(t: seq<Node>, payload: seq<byte>, bitLength: nat, p: nat, c: byte,
                   path: seq<bool>, next: nat, out: seq<byte>)
    requires ValidTree(t) && bitLength <= 8 * |payload| && c < LeafCount
    requires path == RootPath(t, c) && next == p + 1 + |path| <= bitLength
    requires BitAt(payload, p)
    requires forall i :: 0 <= i < |path| ==> BitAt(payload, p + 1 + i) == path[i]
    ensures Run(t, payload, bitLength, p, out) == Run(t, payload, bitLength, next, out + [c])
  {
    LeafDepth(t, c);
    WalkReaches(t, payload, bitLength, c, path, p + 1, 0);
    assert path[..0] == [];
    RunCoded(t, payload, bitLength, p, c, next, out);
  }

  /** The bits after the first of a string the packet carries at p. */
  lemma ShiftBits(payload: seq<byte>, p: nat, b: bool, rest: seq<bool>)
    requires (p + |rest|) / 8 < |payload|
    requires forall i :: 0 <= i < 1 + |rest| ==> BitAt(payload, p + i) == ([b] + rest)[i]
    ensures BitAt(payload, p) == b
    ensures forall i :: 0 <= i < |rest| ==> BitAt(payload, p + 1 + i) == rest[i]
  {
    assert BitAt(payload, p + 0) == ([b] + rest)[0];
    forall i | 0 <= i < |rest|
      ensures BitAt(payload, p + 1 + i) == rest[i]
    {
      assert BitAt(payload, p + (1 + i)) == ([b] + rest)[1 + i];
    }
  }

  /** A code written at position p is read back as its byte. */
  lemma DecodeOne(t: seq<Node>, payload: seq<byte>, bitLength: nat, p: nat, c: byte,
                  code: seq<bool>, out: seq<byte>, next: nat, out': seq<byte>)
    requires ValidTree(t) && bitLength <= 8 * |payload|
    requires code == if |RootPath(t, c)| >= LiteralDepth then [false] + Bits(c, 8)
                     else [true] + RootPath(t, c)
    requires next == p + |code| <= bitLength && out' == out + [c]
    requires forall i :: 0 <= i < |code| ==> BitAt(payload, p + i) == code[i]
    ensures Run(t, payload, bitLength, p, out) == Run(t, payload, bitLength, next, out')
  {
    var path := RootPath(t, c);
    if |path| >= LiteralDepth {
      assert code == [false] + Bits(c, 8);
      ShiftBits(payload, p, false, Bits(c, 8));
      DecodeLiteral(t, payload, bitLength, p, c, next, out);
    } else {
      assert code == [true] + path;
      ShiftBits(payload, p, true, path);
      DecodePath(t, payload, bitLength, p, c, path, next, out);
    }
  }

  /** The packet bits from p on that hold a + b hold a, then b. */
  lemma SplitBits(payload: seq<byte>, p: nat, a: seq<bool>, b: seq<bool>)
    requires p + |a + b| <= 8 * |payload|
    requires forall i :: 0 <= i < |a + b| ==> BitAt(payload, p + i) == (a + b)[i]
    ensures forall i :: 0 <= i < |a| ==> BitAt(payload, p + i) == a[i]
    ensures forall i :: 0 <= i < |b| ==> BitAt(payload, p + |a| + i) == b[i]
  {
    forall i | 0 <= i < |a|
      ensures BitAt(payload, p + i) == a[i]
    {
      assert (a + b)[i] == a[i];
    }
    forall i | 0 <= i < |b|
      ensures BitAt(payload, p + |a| + i) == b[i]
    {
      assert BitAt(payload, p + (|a| + i)) == (a + b)[|a| + i];
    }
  }

  /** The encoding of c followed by rest is c's code, then rest's encoding. */
  lemma {:induction false} EncodingCons(t: seq<Node>, src: seq<byte>)
    requires ValidCodec(t) && |src| >= 1
    ensures Encoding(t, src) == Code(t, src[0]) + Encoding(t, src[1..])
    decreases |src|
  {
    if |src| > 1 {
      var init := src[..|src| - 1];
      EncodingCons(t, init);
      assert init[1..] == src[1..][..|src[1..]| - 1];
      assert init[0] == src[0];
    } else {
      assert src[..0] == [] && src[1..] == [];
    }
  }

  /** After the code of rest[0] the packet holds the encoding of rest[1..]. */
  lemma TailBits(t: seq<Node>, payload: seq<byte>, bitLength: nat, p: nat, rest: seq<byte>)
    requires ValidCodec(t) && bitLength <= 8 * |payload| && rest != []
    requires p + |Encoding(t, rest)| == bitLength
    requires forall i :: 0 <= i < |Encoding(t, rest)| ==> BitAt(payload, p + i) == Encoding(t, rest)[i]
    ensures p + |Code(t, rest[0])| + |Encoding(t, rest[1..])| == bitLength
    ensures forall i :: 0 <= i < |Encoding(t, rest[1..])| ==>
      BitAt(payload, p + |Code(t, rest[0])| + i) == Encoding(t, rest[1..])[i]
  {
    EncodingCons(t, rest);
    SplitBits(payload, p, Code(t, rest[0]), Encoding(t, rest[1..]));
  }

  /** One turn of the main loop reads back the first byte of rest. */
  lemma DecodeHead(t: seq<Node>, payload: seq<byte>, bitLength: nat, p: nat,
                   out: seq<byte>, rest: seq<byte>)
    requires ValidCodec(t) && bitLength <= 8 * |payload| && rest != []
    requires p + |Encoding(t, rest)| == bitLength
    requires forall i :: 0 <= i < |Encoding(t, rest)| ==> BitAt(payload, p + i) == Encoding(t, rest)[i]
    ensures Run(t, payload, bitLength, p, out) ==
            Run(t, payload, bitLength, p + |Code(t, rest[0])|, out + [rest[0]])
  {
    HeadBits(t, payload, bitLength, p, rest);
    DecodeOne(t, payload, bitLength, p, rest[0], Code(t, rest[0]), out,
              p + |Code(t, rest[0])|, out + [rest[0]]);
  }

  /** The packet from bit p on starts with the code of rest[0]. */
  lemma HeadBits(t: seq<Node>, payload: seq<byte>, bitLength: nat, p: nat, rest: seq<byte>)
    requires ValidCodec(t) && bitLength <= 8 * |payload| && rest != []
    requires p + |Encoding(t, rest)| == bitLength
    requires forall i :: 0 <= i < |Encoding(t, rest)| ==> BitAt(payload, p + i) == Encoding(t, rest)[i]
    ensures Code(t, rest[0]) == if |RootPath(t, rest[0])| >= LiteralDepth then [false] + Bits(rest[0], 8)
                                else [true] + RootPath(t, rest[0])
    ensures p + |Code(t, rest[0])| <= bitLength
    ensures forall i :: 0 <= i < |Code(t, rest[0])| ==> BitAt(payload, p + i) == Code(t, rest[0])[i]
  {
    EncodingCons(t, rest);
    SplitBits(payload, p, Code(t, rest[0]), Encoding(t, rest[1..]));
    CodeMeaning(t, rest[0]);
  }

  /** Decoding from bit p of a packet holding the encoding of rest there
      and nothing after it appends rest to what was decoded so far. */
  lemma {:induction false} RunDecodes(t: seq<Node>, payload: seq<byte>, bitLength: nat, p: nat,
                                      out: seq<byte>, rest: seq<byte>)
    requires ValidCodec(t) && bitLength <= 8 * |payload|
    requires p + |Encoding(t, rest)| == bitLength
    requires forall i :: 0 <= i < |Encoding(t, rest)| ==> BitAt(payload, p + i) == Encoding(t, rest)[i]
    ensures Run(t, payload, bitLength, p, out) == Ok(out + rest)
    decreases |rest|
  {
    if rest == [] {
      assert out + rest == out;
    } else {
      TailBits(t, payload, bitLength, p, rest);
      RunDecodes(t, payload, bitLength, p + |Code(t, rest[0])|, out + [rest[0]], rest[1..]);
      DecodeHead(t, payload, bitLength, p, out, rest);
      ConsAppend(out, rest);
    }
  }

  /** Appending the first element, then the others, appends all. */
  lemma ConsAppend(out: seq<byte>, rest: seq<byte>)
    requires rest != []
    ensures out + [rest[0]] + rest[1..] == out + rest
  {
  }

  /** decompress(compress(src)) == src for every packet compress accepts. */
  lemma RoundTrip(t: seq<Node>, src: seq<byte>, out: seq<byte>)
    requires ValidCodec(t) && |src| >= 1 && src[0] < 128
    requires IsCompressionOf(t, src, out)
    ensures Decompress(t, out) == Ok(src)
  {
    var e := Encoding(t, src);
    var len := CompressedLength(|e|);
    if len < |src| {
      PaddingFills(|e|);
      var payload := out[1..];
      assert out[0] % 16 == Padding(|e|);
      assert (|out| - 1) * 8 - out[0] % 16 == |e|;
      forall q | 0 <= q < |e|
        ensures BitAt(payload, q) == e[q]
      {
      }
      RunDecodes(t, payload, |e|, 0, [], src);
      assert [] + src == src;
    }
  }

  /** Where the guarded walk succeeds, the walk as written takes the same
      path and never reaches the peek past the buffer. */
  lemma {:induction false} WalkOkAsWritten(t: seq<Node>, payload: seq<byte>, bitLength: nat, n: int, bit: nat)
    requires ValidTree(t) && 0 <= n < NodeCount && bitLength <= 8 * |payload|
    requires Walk(t, payload, bitLength, n, bit).Ok?
    ensures bit <= bitLength
    ensures WalkAsWritten(t, payload, bitLength, n, bit) == Walk(t, payload, bitLength, n, bit)
    decreases n
  {
    var c := Child(t, n, BitAt(payload, bit));
    ChildOf(t, n, BitAt(payload, bit));
    if c != -1 && !IsLeaf(t, c) {
      WalkOkAsWritten(t, payload, bitLength, c, bit + 1);
    }
  }

  /** Where the guarded loop succeeds, the loop as written decodes the
      same bytes. */
  lemma {:induction false} RunOkAsWritten(t: seq<Node>, payload: seq<byte>, bitLength: nat, bit: nat, out: seq<byte>)
    requires ValidTree(t) && bitLength <= 8 * |payload|
    requires Run(t, payload, bitLength, bit, out).Ok?
    ensures RunAsWritten(t, payload, bitLength, bit, out) == Run(t, payload, bitLength, bit, out)
    decreases bitLength - bit
  {
    if bit < bitLength {
      if BitAt(payload, bit) {
        var w := Walk(t, payload, bitLength, Root, bit + 1);
        WalkOkAsWritten(t, payload, bitLength, Root, bit + 1);
        RunOkAsWritten(t, payload, bitLength, w.value.1, out + [w.value.0]);
      } else {
        var v := Literal(payload, bit + 1);
        RunOkAsWritten(t, payload, bitLength, bit + 9, out + [v.value]);
      }
    }
  }

  /** The decoder exactly as written also gives back what compress
      encoded: only a packet compress never produces reaches the read
      past the buffer. */
  lemma RoundTripAsWritten(t: seq<Node>, src: seq<byte>, out: seq<byte>)
    requires ValidCodec(t) && |src| >= 1 && src[0] < 128
    requires IsCompressionOf(t, src, out)
    ensures DecompressAsWritten(t, out) == Ok(src)
  {
    RoundTrip(t, src, out);
    if |out| > 0 && out[0] >= 128 {
      RunOkAsWritten(t, out[1..], (|out| - 1) * 8 - out[0] % 16, 0, []);
    }
  }
}
