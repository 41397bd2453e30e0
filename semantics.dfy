/**
 * What an octree or DAG level structure MEANS: which voxels are set.  A voxel is named by its
 * Morton index; its base-8 digits, most significant first, choose the octant at each branch
 * level, and its last two digits (the index modulo 64) choose the bit of the 64-bit leaf word
 * that the last branch level (the leaf-parent level, L-3) points at.
 *
 * A `Heap` collects every buffer a pointer may designate, so that the original octree and
 * every stage of its compaction can be read with the same definition.
 */
module Semantics {
  import opened Octree
  import opened Bits
  import opened Digits

  /** Node buffers by level (0 .. L-3) of the octree and of its canonical copy, and the two
      leaf-word buffers (level L-2). */
  datatype Heap = Heap(
    svo: seq<seq<Node>>, uniq: seq<seq<Node>>,
    svoLeaves: seq<Word64>, uniqueLeaves: seq<Word64>)

  function SvoLevel(h: Heap, k: nat): seq<Node> {
    if k < |h.svo| then h.svo[k] else []
  }

  function UniqLevel(h: Heap, k: nat): seq<Node> {
    if k < |h.uniq| then h.uniq[k] else []
  }

  /** The node a level-(m-1) pointer designates at level m; a dangling pointer reads as an
      empty node. */
  function Deref(h: Heap, m: nat, p: Ptr): Node {
    match p
    case Orig(s) => if s < |SvoLevel(h, m)| then SvoLevel(h, m)[s] else EmptyNode()
    case Unique(s) => if s < |UniqLevel(h, m)| then UniqLevel(h, m)[s] else EmptyNode()
    case _ => EmptyNode()
  }

  /** The leaf word a leaf-parent pointer designates. */
  function LeafAt(h: Heap, p: Ptr): Word64 {
    match p
    case Orig(s) => if s < |h.svoLeaves| then h.svoLeaves[s] else 0
    case Unique(s) => if s < |h.uniqueLeaves| then h.uniqueLeaves[s] else 0
    case _ => 0
  }

  function Child(n: Node, d: nat): Ptr {
    if d < |n.children| then n.children[d] else Null
  }

  /** Whether voxel `morton` is set in the subtree of node `n` at branch level `m`. */
  predicate Occupied(h: Heap, levels: nat, m: nat, n: Node, morton: nat)
    requires 3 <= levels && m <= levels - 3
    decreases levels - 3 - m
  {
    var c := Child(n, Digit(morton, levels, m));
    if c == Null then false
    else if m == levels - 3 then IsLeafSet(LeafAt(h, c), morton % 64)
    else Occupied(h, levels, m + 1, Deref(h, m + 1, c), morton)
  }

  /** Two heaps hold the same buffers below level `m`. */
  ghost predicate AgreeBelow(h1: Heap, h2: Heap, levels: nat, m: nat) {
    && h1.svoLeaves == h2.svoLeaves && h1.uniqueLeaves == h2.uniqueLeaves
    && forall k :: m < k <= levels - 3 ==>
      SvoLevel(h1, k) == SvoLevel(h2, k) && UniqLevel(h1, k) == UniqLevel(h2, k)
  }

  /** What a node at level `m` means depends only on the buffers below it. */
  lemma {:induction false} OccupiedFrame(h1: Heap, h2: Heap, levels: nat, m: nat, n: Node, morton: nat)
    requires 3 <= levels && m <= levels - 3
    requires AgreeBelow(h1, h2, levels, m)
    ensures Occupied(h1, levels, m, n, morton) == Occupied(h2, levels, m, n, morton)
    decreases levels - 3 - m
  {
    var c := Child(n, Digit(morton, levels, m));
    if c != Null && m < levels - 3 {
      assert Deref(h1, m + 1, c) == Deref(h2, m + 1, c);
      OccupiedFrame(h1, h2, levels, m + 1, Deref(h1, m + 1, c), morton);
    }
  }
}
