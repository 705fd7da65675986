// The node table of the Huffman codec (src/ballistica/generic/huffman.cc,
// Huffman::build): a reference definition, as pure functions over the
// 511 slots, of the merge loop (lines 516-546) and of the code table
// (lines 552-583), and the structural facts the encoder and the decoder
// rely on.
module HuffmanTree {
  import opened BitOps

  const LeafCount := 256
  const NodeCount := 511
  /** The last node created by the merge loop; it never gets a parent. */
  const Root := 510
  /** A stored `parent` of p means node p + 255; 0 means no parent. */
  const ParentOffset := 255
  /** Codes of this many bits or more are replaced by the literal escape. */
  const LiteralDepth := 8

  /** One slot of `nodes_`. `parent` holds the parent's index minus 255
      (0 = none), the children hold node indices or -1; `val` and `bits`
      are the transmitted code of a leaf. */
  datatype Node = Node(frequency: nat, parent: int, leftChild: int, rightChild: int,
                       val: int, bits: int)

  /** A default-constructed node: parent 0, children -1, frequency 0 (the
      defaults of huffman.h, which build relies on); val and bits 0. */
  const Blank := Node(0, 0, -1, -1, 0, 0)

  predicate AllBlank(t: seq<Node>)
  {
    |t| == NodeCount && forall i :: 0 <= i < |t| ==> t[i] == Blank
  }

  /** The table after line 488: the leaves carry the frequency table, and
      the merge loop can start on it at node_count 256 (lines 508-516). */
  function Seeded(freqs: seq<nat>): (t: seq<Node>)
    requires |freqs| == LeafCount
    ensures |t| == NodeCount
    ensures forall i :: 0 <= i < LeafCount ==> t[i] == Blank.(frequency := freqs[i])
    ensures forall i :: LeafCount <= i < NodeCount ==> t[i] == Blank
    ensures Growing(t, LeafCount)
  {
    var t := seq(NodeCount, i requires 0 <= i < NodeCount =>
      if i < LeafCount then Blank.(frequency := freqs[i]) else Blank);
    FreeAllNone(t, 0, LeafCount);
    FreeAllNone(t, LeafCount, NodeCount);
    t
  }

  // ---------------------------------------------------------------------
  // Counting the nodes that have no parent

  /** How many nodes in [lo, hi) have no parent. */
  function Free(t: seq<Node>, lo: int, hi: int): nat
    requires 0 <= lo <= hi <= |t|
    decreases hi - lo
  {
    if lo == hi then 0 else (if t[lo].parent == 0 then 1 else 0) + Free(t, lo + 1, hi)
  }

  lemma {:induction false} FreeSnoc(t: seq<Node>, lo: int, hi: int)
    requires 0 <= lo < hi <= |t|
    ensures Free(t, lo, hi) == Free(t, lo, hi - 1) + (if t[hi - 1].parent == 0 then 1 else 0)
    decreases hi - lo
  {
    if lo < hi - 1 {
      FreeSnoc(t, lo + 1, hi);
    }
  }

  lemma {:induction false} FreeAllNone(t: seq<Node>, lo: int, hi: int)
    requires 0 <= lo <= hi <= |t|
    requires forall j :: lo <= j < hi ==> t[j].parent == 0
    ensures Free(t, lo, hi) == hi - lo
    decreases hi - lo
  {
    if lo < hi {
      FreeAllNone(t, lo + 1, hi);
    }
  }

  lemma {:induction false} FreeZero(t: seq<Node>, lo: int, hi: int)
    requires 0 <= lo <= hi <= |t|
    requires Free(t, lo, hi) == 0
    ensures forall j :: lo <= j < hi ==> t[j].parent != 0
    decreases hi - lo
  {
    if lo < hi {
      FreeZero(t, lo + 1, hi);
    }
  }

  /** Giving one parentless node of [lo, hi) a parent lowers the count by one. */
  lemma {:induction false} FreeAdopt(t: seq<Node>, u: seq<Node>, lo: int, hi: int, s: int)
    requires |t| == |u| && 0 <= lo <= s < hi <= |t|
    requires t[s].parent == 0 && u[s].parent != 0
    requires forall j :: lo <= j < hi && j != s ==> (t[j].parent == 0) == (u[j].parent == 0)
    ensures Free(u, lo, hi) == Free(t, lo, hi) - 1
    decreases hi - lo
  {
    if lo < s {
      FreeAdopt(t, u, lo + 1, hi, s);
    } else {
      FreeSame(t, u, lo + 1, hi);
    }
  }

  lemma {:induction false} FreeSame(t: seq<Node>, u: seq<Node>, lo: int, hi: int)
    requires |t| == |u| && 0 <= lo <= hi <= |t|
    requires forall j :: lo <= j < hi ==> (t[j].parent == 0) == (u[j].parent == 0)
    ensures Free(u, lo, hi) == Free(t, lo, hi)
    decreases hi - lo
  {
    if lo < hi {
      FreeSame(t, u, lo + 1, hi);
    }
  }

  // ---------------------------------------------------------------------
  // The merge loop (lines 508-546)

  /** How many nodes in [lo, hi) have no parent is at most hi - lo. */
  lemma {:induction false} FreeBound(t: seq<Node>, lo: int, hi: int)
    requires 0 <= lo <= hi <= |t|
    ensures Free(t, lo, hi) <= hi - lo
    decreases hi - lo
  {
    if lo < hi {
      FreeBound(t, lo + 1, hi);
    }
  }

  /** What holds at the head of the merge loop: `count` nodes exist,
      512 - count of them have no parent (so at least two while
      count <= 510), and none of the slots from `count` on has one. */
  predicate Growing(t: seq<Node>, count: int)
  {
    |t| == NodeCount && LeafCount <= count <= NodeCount &&
    Free(t, 0, count) == 2 * LeafCount - count &&
    Free(t, count, NodeCount) == NodeCount - count
  }

  /** The next slot to be created has no parent, nor do those after it. */
  lemma GrowingNext(t: seq<Node>, count: int)
    requires Growing(t, count) && count < NodeCount
    ensures t[count].parent == 0 && Free(t, count + 1, NodeCount) == NodeCount - count - 1
  {
    FreeBound(t, count + 1, NodeCount);
  }

  /** `while (nodes_[i].parent != 0) i++;` (lines 520 and 523): the first
      parentless node at or after i. */
  function FirstFree(t: seq<Node>, i: int, count: int): (r: int)
    requires 0 <= i <= count <= |t| && Free(t, i, count) >= 1
    ensures i <= r < count && t[r].parent == 0
    ensures forall j :: i <= j < r ==> t[j].parent != 0
    ensures Free(t, r + 1, count) == Free(t, i, count) - 1
    decreases count - i
  {
    if t[i].parent == 0 then i else FirstFree(t, i + 1, count)
  }

  /** a and b are two of the lightest parentless nodes below k. */
  predicate Lightest(t: seq<Node>, k: int, a: int, b: int)
    requires 0 <= a < |t| && 0 <= b < |t| && k <= |t|
  {
    forall j :: 0 <= j < k ==> NoLighter(t, a, b, j)
  }

  /** Node j, if parentless and neither pick, weighs no less than either. */
  predicate NoLighter(t: seq<Node>, a: int, b: int, j: int)
    requires 0 <= a < |t| && 0 <= b < |t| && 0 <= j < |t|
  {
    t[j].parent == 0 && j != a && j != b ==>
      t[a].frequency <= t[j].frequency && t[b].frequency <= t[j].frequency
  }

  /** One turn of the scan (lines 527-536): a parentless node i replaces
      whichever pick is heavier, s2 when the two weigh the same, if it is
      strictly lighter. */
  function Pick(t: seq<Node>, i: int, s1: int, s2: int): (r: (int, int))
    requires 0 <= s1 < i < |t| && 0 <= s2 < i
    ensures r.0 == s1 || (r.0 == i && r.1 == s2)
    ensures r.1 == s2 || (r.1 == i && r.0 == s1)
    ensures t[i].parent != 0 ==> r == (s1, s2)
    ensures r.0 == i <==> t[i].parent == 0 && t[s1].frequency > t[s2].frequency &&
                          t[i].frequency < t[s1].frequency
    ensures r.1 == i <==> t[i].parent == 0 && t[s1].frequency <= t[s2].frequency &&
                          t[i].frequency < t[s2].frequency
  {
    if t[i].parent != 0 then (s1, s2)
    else if t[s1].frequency > t[s2].frequency then
      (if t[i].frequency < t[s1].frequency then i else s1, s2)
    else
      (s1, if t[i].frequency < t[s2].frequency then i else s2)
  }

  /** The scan of lines 526-537 from node i on, with current picks s1
      and s2. */
  function Scan(t: seq<Node>, count: int, i: int, s1: int, s2: int): (r: (int, int))
    requires count <= |t| && 0 <= s1 < i && 0 <= s2 < i && i <= count && s1 != s2
    requires t[s1].parent == 0 && t[s2].parent == 0
    ensures 0 <= r.0 < count && 0 <= r.1 < count && r.0 != r.1
    ensures t[r.0].parent == 0 && t[r.1].parent == 0
    decreases count - i
  {
    if i == count then (s1, s2)
    else
      var p := Pick(t, i, s1, s2);
      Scan(t, count, i + 1, p.0, p.1)
  }

  /** One step of the scan keeps the two picks the lightest seen so far. */
  lemma ScanStep(t: seq<Node>, count: int, i: int, s1: int, s2: int)
    requires count <= |t| && 0 <= s1 < i && 0 <= s2 < i && i < count && s1 != s2
    requires t[s1].parent == 0 && t[s2].parent == 0
    requires Lightest(t, i, s1, s2)
    ensures Lightest(t, i + 1, Pick(t, i, s1, s2).0, Pick(t, i, s1, s2).1)
  {
    var p := Pick(t, i, s1, s2);
    forall j | 0 <= j < i + 1
      ensures NoLighter(t, p.0, p.1, j)
    {
      if j < i {
        assert NoLighter(t, s1, s2, j);
      }
    }
  }

  /** The scan ends with two of the lightest parentless nodes. */
  lemma {:induction false} ScanLightest(t: seq<Node>, count: int, i: int, s1: int, s2: int)
    requires count <= |t| && 0 <= s1 < i && 0 <= s2 < i && i <= count && s1 != s2
    requires t[s1].parent == 0 && t[s2].parent == 0
    requires Lightest(t, i, s1, s2)
    ensures var r := Scan(t, count, i, s1, s2); Lightest(t, count, r.0, r.1)
    decreases count - i
  {
    if i < count {
      ScanStep(t, count, i, s1, s2);
      var p := Pick(t, i, s1, s2);
      ScanLightest(t, count, i + 1, p.0, p.1);
    }
  }

  /** The pair (smallest1, smallest2) one merge step picks (lines 517-537). */
  function SelectTwo(t: seq<Node>, count: int): (r: (int, int))
    requires Growing(t, count) && count < NodeCount
    ensures 0 <= r.0 < count && 0 <= r.1 < count && r.0 != r.1
    ensures t[r.0].parent == 0 && t[r.1].parent == 0
  {
    var s1 := FirstFree(t, 0, count);
    var s2 := FirstFree(t, s1 + 1, count);
    Scan(t, count, s2 + 1, s1, s2)
  }

  /** No parentless node below `count` is lighter than either pick. */
  lemma SelectTwoLightest(t: seq<Node>, count: int)
    requires Growing(t, count) && count < NodeCount
    ensures Lightest(t, count, SelectTwo(t, count).0, SelectTwo(t, count).1)
  {
    var s1 := FirstFree(t, 0, count);
    var s2 := FirstFree(t, s1 + 1, count);
    ScanLightest(t, count, s2 + 1, s1, s2);
  }

  /** Node `count` becomes the parent of s1 and s2 (lines 538-545),
      with their summed frequency, s1 on the right and s2 on the left. */
  function Adopt(t: seq<Node>, count: int, s1: int, s2: int): seq<Node>
    requires 0 <= s1 < count < |t| && 0 <= s2 < count
  {
    t[count := t[count].(frequency := t[s1].frequency + t[s2].frequency,
                         rightChild := s1, leftChild := s2)]
     [s1 := t[s1].(parent := count - ParentOffset)]
     [s2 := t[s2].(parent := count - ParentOffset)]
  }

  /** What `Adopt` changes, slot by slot. */
  lemma AdoptSlots(t: seq<Node>, count: int, s1: int, s2: int)
    requires 0 <= s1 < count < |t| && 0 <= s2 < count && s1 != s2
    ensures var u := Adopt(t, count, s1, s2);
      |u| == |t| &&
      u[count] == t[count].(frequency := t[s1].frequency + t[s2].frequency,
                            rightChild := s1, leftChild := s2) &&
      u[s1] == t[s1].(parent := count - ParentOffset) &&
      u[s2] == t[s2].(parent := count - ParentOffset) &&
      forall j :: 0 <= j < |t| && j != count && j != s1 && j != s2 ==> u[j] == t[j]
  {
  }

  /** One merge step: the two lightest parentless nodes get node `count`
      as their parent. */
  function Merge(t: seq<Node>, count: int): (u: seq<Node>)
    requires Growing(t, count) && count < NodeCount
    ensures Growing(u, count + 1)
  {
    var pick := SelectTwo(t, count);
    MergeCounts(t, count, pick.0, pick.1);
    Adopt(t, count, pick.0, pick.1)
  }

  lemma MergeCounts(t: seq<Node>, count: int, s1: int, s2: int)
    requires Growing(t, count) && count < NodeCount
    requires 0 <= s1 < count && 0 <= s2 < count && s1 != s2
    requires t[s1].parent == 0 && t[s2].parent == 0
    ensures Growing(Adopt(t, count, s1, s2), count + 1)
  {
    var u := Adopt(t, count, s1, s2);
    AdoptSlots(t, count, s1, s2);
    var mid := t[s1 := t[s1].(parent := count - ParentOffset)];
    FreeAdopt(t, mid, 0, count, s1);
    FreeAdopt(mid, u, 0, count, s2);
    FreeSnoc(u, 0, count + 1);
    GrowingNext(t, count);
    FreeSame(t, u, count + 1, NodeCount);
  }

  /** The table after k turns of the merge loop started on s. */
  function Stage(s: seq<Node>, k: nat): (t: seq<Node>)
    requires Growing(s, LeafCount) && k <= NodeCount - LeafCount
    ensures Growing(t, LeafCount + k)
  {
    if k == 0 then s else Merge(Stage(s, k - 1), LeafCount + k - 1)
  }

  /** One more turn of the merge loop is one more Merge. */
  lemma StageNext(s: seq<Node>, k: nat)
    requires Growing(s, LeafCount) && k < NodeCount - LeafCount
    ensures Stage(s, k + 1) == Merge(Stage(s, k), LeafCount + k)
  {
  }

  /** The tree the merge loop leaves behind (line 546). */
  function MergedTree(freqs: seq<nat>): (t: seq<Node>)
    requires |freqs| == LeafCount
    ensures |t| == NodeCount
  {
    Stage(Seeded(freqs), NodeCount - LeafCount)
  }

  // ---------------------------------------------------------------------
  // The shape of the tree

  /** Node n (created by a merge) has two distinct older children that
      point back at it, and their summed frequency. */
  predicate Internal(t: seq<Node>, n: int)
    requires 0 <= n < |t|
  {
    var l, r := t[n].leftChild, t[n].rightChild;
    0 <= l < n && 0 <= r < n && l != r &&
    t[l].parent == n - ParentOffset && t[r].parent == n - ParentOffset &&
    t[n].frequency == t[l].frequency + t[r].frequency
  }

  /** Node i's stored parent is in range, newer than i, and has i as a child. */
  predicate Linked(t: seq<Node>, i: int)
    requires 0 <= i < |t| == NodeCount
  {
    var p := t[i].parent + ParentOffset;
    1 <= t[i].parent < LeafCount && i < p &&
    (t[p].leftChild == i || t[p].rightChild == i)
  }

  /** Node n has no children. */
  predicate IsLeaf(t: seq<Node>, n: int)
    requires |t| == NodeCount && 0 <= n < NodeCount
  {
    t[n].leftChild == -1 && t[n].rightChild == -1
  }

  /** The links among the first `count` nodes are those of a forest. */
  predicate Shaped(t: seq<Node>, count: int)
    requires |t| == NodeCount && count <= NodeCount
  {
    (forall i :: 0 <= i < LeafCount ==> IsLeaf(t, i)) &&
    (forall n :: LeafCount <= n < count ==> Internal(t, n)) &&
    (forall i :: 0 <= i < count ==> Parented(t, count, i))
  }

  /** Node i, if it has a parent, is linked to one among the first
      `count` nodes. */
  predicate Parented(t: seq<Node>, count: int, i: int)
    requires |t| == NodeCount && 0 <= i < count <= NodeCount
  {
    t[i].parent != 0 ==> Linked(t, i) && t[i].parent + ParentOffset < count
  }

  /** A finished tree: node 510 is the root, every other node has a parent. */
  predicate ValidTree(t: seq<Node>)
  {
    |t| == NodeCount && Shaped(t, NodeCount) && t[Root].parent == 0 &&
    forall i :: 0 <= i < Root ==> t[i].parent != 0
  }

  lemma AdoptInternal(t: seq<Node>, count: int, s1: int, s2: int)
    requires Growing(t, count) && count < NodeCount && Shaped(t, count)
    requires 0 <= s1 < count && 0 <= s2 < count && s1 != s2
    requires t[s1].parent == 0 && t[s2].parent == 0
    ensures forall n :: LeafCount <= n < count + 1 ==> Internal(Adopt(t, count, s1, s2), n)
  {
    var u := Adopt(t, count, s1, s2);
    AdoptSlots(t, count, s1, s2);
    forall n | LeafCount <= n < count + 1
      ensures Internal(u, n)
    {
      if n < count {
        assert Internal(t, n);
        assert u[n].leftChild == t[n].leftChild && u[n].rightChild == t[n].rightChild;
        assert u[n].frequency == t[n].frequency;
        var l, r := t[n].leftChild, t[n].rightChild;
        assert l != s1 && l != s2 && r != s1 && r != s2;
        assert u[l] == t[l] && u[r] == t[r];
      }
    }
  }

  lemma AdoptLinked(t: seq<Node>, u: seq<Node>, count: int, next: int, s1: int, s2: int)
    requires Growing(t, count) && count < NodeCount && Shaped(t, count) && next == count + 1
    requires 0 <= s1 < count && 0 <= s2 < count && s1 != s2
    requires t[s1].parent == 0 && t[s2].parent == 0
    requires u == Adopt(t, count, s1, s2)
    ensures forall i :: 0 <= i < next ==> Parented(u, next, i)
  {
    AdoptSlots(t, count, s1, s2);
    GrowingNext(t, count);
    forall i | 0 <= i < next
      ensures Parented(u, next, i)
    {
      if i != s1 && i != s2 && u[i].parent != 0 {
        assert u[i] == t[i];
        assert Parented(t, count, i);
        var p := Up(t, i);
        assert p < count;
        assert u[p].leftChild == t[p].leftChild && u[p].rightChild == t[p].rightChild;
      }
    }
  }

  lemma MergeShaped(t: seq<Node>, count: int)
    requires Growing(t, count) && count < NodeCount && Shaped(t, count)
    ensures Shaped(Merge(t, count), count + 1)
    ensures forall i :: 0 <= i < LeafCount ==> Merge(t, count)[i].frequency == t[i].frequency
  {
    var pick := SelectTwo(t, count);
    AdoptSlots(t, count, pick.0, pick.1);
    AdoptInternal(t, count, pick.0, pick.1);
    AdoptLinked(t, Merge(t, count), count, count + 1, pick.0, pick.1);
    forall i | 0 <= i < LeafCount
      ensures IsLeaf(Merge(t, count), i)
    {
      assert IsLeaf(t, i);
    }
  }

  lemma {:induction false} StageShaped(s: seq<Node>, k: nat)
    requires Growing(s, LeafCount) && Shaped(s, LeafCount) && k <= NodeCount - LeafCount
    ensures Shaped(Stage(s, k), LeafCount + k)
    ensures forall i :: 0 <= i < LeafCount ==> Stage(s, k)[i].frequency == s[i].frequency
  {
    if k > 0 {
      StageShaped(s, k - 1);
      MergeShaped(Stage(s, k - 1), LeafCount + k - 1);
      StageNext(s, k - 1);
      var u := Stage(s, k);
      assert Shaped(u, LeafCount + k);
    }
  }

  /** After the merge loop exactly node 510 lacks a parent (lines 548-549). */
  lemma FinishedTree(t: seq<Node>)
    requires Growing(t, NodeCount) && Shaped(t, NodeCount)
    ensures ValidTree(t)
  {
    assert Parented(t, NodeCount, Root);
    FreeSnoc(t, 0, NodeCount);
    FreeZero(t, 0, Root);
  }

  /** The merge loop builds a valid tree over the 256 leaves, keeping
      their frequencies. */
  lemma MergedTreeValid(freqs: seq<nat>)
    requires |freqs| == LeafCount
    ensures ValidTree(MergedTree(freqs))
    ensures forall i :: 0 <= i < LeafCount ==> MergedTree(freqs)[i].frequency == freqs[i]
  {
    StageShaped(Seeded(freqs), NodeCount - LeafCount);
    FinishedTree(MergedTree(freqs));
  }

  // ---------------------------------------------------------------------
  // Paths and the code table

  /** The index a stored parent stands for (`parent + 255`). */
  function Up(t: seq<Node>, i: int): int
    requires 0 <= i < |t|
  {
    t[i].parent + ParentOffset
  }

  /** Whether node i is its parent's right child (a 1 in its code). */
  function IsRight(t: seq<Node>, i: int): bool
    requires ValidTree(t) && 0 <= i < Root
  {
    ParentAbove(t, i);
    t[Up(t, i)].rightChild == i
  }

  /** The turns from the root down to node i, the first turn first;
      true = right. */
  function RootPath(t: seq<Node>, i: int): seq<bool>
    requires ValidTree(t) && 0 <= i < NodeCount
    decreases NodeCount - i
  {
    if t[i].parent == 0 then []
    else
      ParentAbove(t, i);
      RootPath(t, Up(t, i)) + [IsRight(t, i)]
  }

  /** A parent is a newer node that has i as a child. */
  lemma ParentAbove(t: seq<Node>, i: int)
    requires ValidTree(t) && 0 <= i < NodeCount && t[i].parent != 0
    ensures Linked(t, i) && i < Up(t, i) < NodeCount && i < Root
  {
    assert Parented(t, NodeCount, i);
  }

  /** The code length a leaf gets (lines 565, 572-573, 582). */
  function CodeLen(t: seq<Node>, i: int): nat
    requires ValidTree(t) && 0 <= i < LeafCount
  {
    var d := |RootPath(t, i)|;
    if d >= LiteralDepth then LiteralDepth + 1 else d + 1
  }

  /** The code value a leaf gets (lines 560-563, 575, 577-579): a control
      bit, then the path read from the root, least significant bit first;
      or a 0 control bit and the symbol itself. */
  function CodeVal(t: seq<Node>, i: int): nat
    requires ValidTree(t) && 0 <= i < LeafCount
  {
    var path := RootPath(t, i);
    if |path| >= LiteralDepth then 2 * i else Pack([true] + path)
  }

  /** The code table after line 583. */
  function Coded(t: seq<Node>): (u: seq<Node>)
    requires ValidTree(t)
    ensures |u| == NodeCount
  {
    seq(NodeCount, i requires 0 <= i < NodeCount =>
      if i < LeafCount then t[i].(val := CodeVal(t, i), bits := CodeLen(t, i)) else t[i])
  }

  /** Everything `build` leaves in `nodes_`. */
  function BuiltTable(freqs: seq<nat>): seq<Node>
    requires |freqs| == LeafCount
  {
    MergedTreeValid(freqs);
    Coded(MergedTree(freqs))
  }

  /** A table whose shape is a valid tree and whose leaves carry the codes
      derived from it. */
  predicate ValidCodec(t: seq<Node>)
  {
    ValidTree(t) && forall i :: 0 <= i < LeafCount ==> LeafCoded(t, i)
  }

  /** Leaf i carries the code its place in the tree gives it. */
  predicate LeafCoded(t: seq<Node>, i: int)
    requires ValidTree(t) && 0 <= i < LeafCount
  {
    t[i].val == CodeVal(t, i) && t[i].bits == CodeLen(t, i)
  }

  /** Two tables with the same links and frequencies. */
  predicate SameShape(t: seq<Node>, u: seq<Node>)
  {
    |t| == |u| &&
    forall i :: 0 <= i < |t| ==>
      t[i].parent == u[i].parent && t[i].leftChild == u[i].leftChild &&
      t[i].rightChild == u[i].rightChild && t[i].frequency == u[i].frequency
  }

  lemma SameShapeValid(t: seq<Node>, u: seq<Node>)
    requires SameShape(t, u) && ValidTree(t)
    ensures ValidTree(u)
  {
    forall i | 0 <= i < LeafCount
      ensures IsLeaf(u, i)
    {
      assert IsLeaf(t, i);
    }
    forall n | LeafCount <= n < NodeCount
      ensures Internal(u, n)
    {
      assert Internal(t, n);
    }
    forall i | 0 <= i < NodeCount
      ensures Parented(u, NodeCount, i)
    {
      assert Parented(t, NodeCount, i);
    }
  }

  lemma {:induction false} SameShapePath(t: seq<Node>, u: seq<Node>, i: int)
    requires SameShape(t, u) && ValidTree(t) && ValidTree(u) && 0 <= i < NodeCount
    ensures RootPath(t, i) == RootPath(u, i)
    decreases NodeCount - i
  {
    if t[i].parent != 0 {
      ParentAbove(t, i);
      SameShapePath(t, u, Up(t, i));
    }
  }

  /** `build` leaves a valid tree with its codes in place. */
  lemma CodedShape(t: seq<Node>)
    requires ValidTree(t)
    ensures SameShape(t, Coded(t)) && ValidTree(Coded(t))
  {
    SameShapeValid(t, Coded(t));
  }

  lemma CodedCodes(t: seq<Node>)
    requires ValidTree(t)
    ensures ValidCodec(Coded(t))
  {
    var u := Coded(t);
    CodedShape(t);
    forall i | 0 <= i < LeafCount
      ensures LeafCoded(u, i)
    {
      SameShapePath(t, u, i);
    }
  }

  /** `build` leaves a valid tree with its codes in place, over the given
      leaf frequencies. */
  lemma BuiltTableValid(freqs: seq<nat>)
    requires |freqs| == LeafCount
    ensures ValidCodec(BuiltTable(freqs))
    ensures forall i :: 0 <= i < LeafCount ==> BuiltTable(freqs)[i].frequency == freqs[i]
  {
    MergedTreeValid(freqs);
    CodedCodes(MergedTree(freqs));
  }

  // ---------------------------------------------------------------------
  // Walking down from the root

  function Child(t: seq<Node>, n: int, right: bool): int
    requires |t| == NodeCount && 0 <= n < NodeCount
  {
    if right then t[n].rightChild else t[n].leftChild
  }

  /** The node reached from n by following the turns `bs`; -1 off the tree. */
  function Descend(t: seq<Node>, n: int, bs: seq<bool>): int
    requires |t| == NodeCount
    decreases |bs|
  {
    if bs == [] then n
    else if !(0 <= n < NodeCount) then -1
    else Descend(t, Child(t, n, bs[0]), bs[1..])
  }

  lemma {:induction false} DescendSnoc(t: seq<Node>, n: int, bs: seq<bool>, b: bool)
    requires |t| == NodeCount
    ensures Descend(t, n, bs + [b]) ==
      (var m := Descend(t, n, bs); if 0 <= m < NodeCount then Child(t, m, b) else -1)
    decreases |bs|
  {
    if bs == [] {
      assert [b][1..] == [];
    } else if 0 <= n < NodeCount {
      assert (bs + [b])[1..] == bs[1..] + [b];
      DescendSnoc(t, Child(t, n, bs[0]), bs[1..], b);
    }
  }

  /** Following a node's root path from the root leads to that node. */
  lemma {:induction false} DescendRootPath(t: seq<Node>, x: int)
    requires ValidTree(t) && 0 <= x < NodeCount
    ensures Descend(t, Root, RootPath(t, x)) == x
    decreases NodeCount - x
  {
    if t[x].parent != 0 {
      var p := Up(t, x);
      ParentAbove(t, x);
      DescendRootPath(t, p);
      DescendSnoc(t, Root, RootPath(t, p), IsRight(t, x));
    }
  }

  /** Every node strictly above x on its root path was made by a merge. */
  lemma {:induction false} RootPathInternal(t: seq<Node>, x: int, j: int)
    requires ValidTree(t) && 0 <= x < NodeCount && 0 <= j < |RootPath(t, x)|
    ensures LeafCount <= Descend(t, Root, RootPath(t, x)[..j]) < NodeCount
    decreases NodeCount - x
  {
    var p := Up(t, x);
    ParentAbove(t, x);
    var pp := RootPath(t, p);
    assert RootPath(t, x) == pp + [IsRight(t, x)];
    if j == |pp| {
      assert RootPath(t, x)[..j] == pp;
      DescendRootPath(t, p);
    } else {
      assert RootPath(t, x)[..j] == pp[..j];
      RootPathInternal(t, p, j);
    }
  }

  /** A leaf is below the root, so its code has 2..9 bits. */
  lemma LeafDepth(t: seq<Node>, i: int)
    requires ValidTree(t) && 0 <= i < LeafCount
    ensures |RootPath(t, i)| >= 1
    ensures 2 <= CodeLen(t, i) <= 9
  {
  }

  /** The meaning of a leaf's code, read least significant bit first: a 1
      and the root path if that is shorter than 8 turns, else a 0 and the
      8 bits of the symbol. */
  lemma CodeBits(t: seq<Node>, i: int)
    requires ValidTree(t) && 0 <= i < LeafCount
    ensures 0 <= CodeVal(t, i) < 65536 && CodeVal(t, i) < Pow2(CodeLen(t, i))
    ensures CodeVal(t, i) % 2 == (if |RootPath(t, i)| >= LiteralDepth then 0 else 1)
    ensures Bits(CodeVal(t, i), CodeLen(t, i)) ==
      if |RootPath(t, i)| >= LiteralDepth then [false] + Bits(i, 8)
      else [true] + RootPath(t, i)
  {
    var path := RootPath(t, i);
    if |path| >= LiteralDepth {
      assert Pow2(9) == 512;
      BitsShiftIn(i, 0, 8);
    } else {
      PackBits([true] + path);
      Pow2Monotone(|path| + 1, 8);
      assert Pow2(8) == 256;
    }
  }
}
