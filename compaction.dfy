/**
 * The compaction of an octree into a DAG (DAG.cpp:53-275), as a sequence of states of a
 * `Heap`: the leaf pass, one branch pass per level from L-4 up to 0, and the root copy.  The
 * pure lemmas state what each pass preserves; `Compact` performs the passes on the buffers.
 */
module Compaction {
  import opened Octree
  import opened Bits
  import opened Canonical
  import opened Ordering
  import opened Rewrite
  import opened Semantics
  import opened Digits

  /** The octree before compaction: only its own buffers. */
  function OriginalHeap(svo: seq<seq<Node>>, leaves: seq<Word64>): Heap {
    Heap(svo, [], leaves, [])
  }

  /** Bound on the slots of a level-k pointer: the size of the level below. */
  function BelowSize(h: Heap, levels: nat, k: nat): nat {
    if k + 3 < levels then |SvoLevel(h, k + 1)| else |h.svoLeaves|
  }

  /** What the octree builder hands over: level k holds 8^k nodes, the leaf level 8^(L-2)
      words, and every slot is null or an index into the level below. */
  ghost predicate OctreeShape(h: Heap, levels: nat) {
    && 3 <= levels
    && |h.svo| == levels - 2
    && |h.svoLeaves| == Pow(8, levels - 2)
    && (forall k :: 0 <= k < levels - 2 ==> |h.svo[k]| == Pow(8, k))
    && (forall k, i :: 0 <= k < levels - 2 && 0 <= i < |h.svo[k]| ==>
          WellFormed(h.svo[k][i]) && OrigRefs(h.svo[k][i], BelowSize(h, levels, k)))
  }

  /** Every slot is null or an index into the canonical level below. */
  predicate UniqueRefs(n: Node, bound: nat) {
    forall j :: 0 <= j < |n.children| ==>
      n.children[j] == Null || (n.children[j].Unique? && n.children[j].slot < bound)
  }

  /** Leaf-parent slots: null, a canonical leaf, or (the zero-word quirk of DAG.cpp:143) the
      octree's own leaf word, which is then 0. */
  predicate LeafRefs(n: Node, bound: nat, leaves: seq<Word64>) {
    forall j :: 0 <= j < |n.children| ==>
      || n.children[j] == Null
      || (n.children[j].Unique? && n.children[j].slot < bound)
      || (n.children[j].Orig? && n.children[j].slot < |leaves| && leaves[n.children[j].slot] == 0)
  }

  /** Nodes of level k point only into the canonical buffers below. */
  ghost predicate LevelClosed(h: Heap, levels: nat, k: nat, nodes: seq<Node>) {
    forall i :: 0 <= i < |nodes| ==>
      && WellFormed(nodes[i])
      && (k + 3 < levels ==> UniqueRefs(nodes[i], |UniqLevel(h, k + 1)|))
      && (k + 3 >= levels ==> LeafRefs(nodes[i], |h.uniqueLeaves|, h.svoLeaves))
  }

  /** The compacted structure: one root, and every canonical level closed. */
  ghost predicate CanonicalDag(h: Heap, levels: nat) {
    && 3 <= levels
    && |h.uniq| == levels - 2
    && |h.uniq[0]| == 1
    && (forall k, i :: 0 <= k < levels - 2 && 0 <= i < |h.uniq[k]| ==> WellFormed(h.uniq[k][i]))
    && forall k {:trigger LevelClosed(h, levels, k, h.uniq[k])} :: 0 <= k < levels - 2 ==> LevelClosed(h, levels, k, h.uniq[k])
  }

  /** Level k of `h` means, node for node, what level k of the original octree means. */
  ghost predicate LevelSem(h: Heap, h0: Heap, levels: nat, k: nat)
    requires 3 <= levels && k <= levels - 3
  {
    && |SvoLevel(h, k)| == |SvoLevel(h0, k)|
    && forall s, morton :: 0 <= s < |SvoLevel(h, k)| ==>
      Occupied(h, levels, k, SvoLevel(h, k)[s], morton) == Occupied(h0, levels, k, SvoLevel(h0, k)[s], morton)
  }

  /** Levels 0 .. p are still the octree's own. */
  ghost predicate Untouched(h: Heap, h0: Heap, p: int) {
    forall k :: 0 <= k <= p && k < |h.svo| && k < |h0.svo| ==> h.svo[k] == h0.svo[k]
  }

  /** Levels p+1 .. L-3 point only into the canonical buffers below them. */
  ghost predicate ClosedFrom(h: Heap, levels: nat, p: int) {
    forall k :: p + 1 <= k < levels - 2 && 0 <= k < |h.svo| ==> LevelClosed(h, levels, k, h.svo[k])
  }

  /** The canonical leaf words and canonical levels p+2 .. L-3 are the canonical copies of
      the leaf words and of the redirected levels. */
  ghost predicate CanonicalFrom(h: Heap, levels: nat, p: int) {
    && h.uniqueLeaves == Dedup(Sort(h.svoLeaves, LeafLe))
    && forall k :: p + 2 <= k < levels - 2 && 0 <= k < |h.svo| && k < |h.uniq| ==>
         h.uniq[k] == Dedup(Sort(h.svo[k], NodeLe))
  }

  /** Canonical levels p+2 .. L-3 hold nodes of the redirected levels only. */
  ghost predicate DrawnFrom(h: Heap, levels: nat, p: int) {
    forall k, x :: p + 2 <= k < levels - 2 && 0 <= k < |h.svo| && k < |h.uniq| && x in h.uniq[k] ==>
      x in h.svo[k]
  }

  /** Canonical levels 0 .. p+1 are not built yet. */
  ghost predicate EmptyAbove(h: Heap, p: int) {
    forall k :: 0 <= k <= p + 1 && k < |h.uniq| ==> h.uniq[k] == []
  }

  /** Levels p+1 .. L-3 are the original ones redirected to the canonical level below. */
  ghost predicate RedirectedFrom(h: Heap, h0: Heap, levels: nat, p: int)
    requires 3 <= levels && |h.svo| == levels - 2 && |h0.svo| == levels - 2 && |h.uniq| == levels - 2
  {
    && h.svo[levels - 3] == RewriteLeafLevel(h0.svo[levels - 3], h0.svoLeaves, h.uniqueLeaves)
    && (forall k :: p < k < levels - 3 && 0 <= k ==>
          h.svo[k] == RewriteLevel(h0.svo[k], h.svo[k + 1], h.uniq[k + 1]))
  }

  /** The state between two branch passes: levels up to `p` are still the octree's own,
      levels above `p` have been redirected, canonical copies exist from level p+2 down. */
  ghost predicate Inv(h: Heap, h0: Heap, levels: nat, p: int) {
    && OctreeShape(h0, levels)
    && -1 <= p <= levels - 4
    && |h.svo| == levels - 2 && |h.uniq| == levels - 2
    && h.svoLeaves == h0.svoLeaves
    && Untouched(h, h0, p)
    && LevelSem(h, h0, levels, p + 1)
    && ClosedFrom(h, levels, p)
    && DrawnFrom(h, levels, p)
    && EmptyAbove(h, p)
    && RedirectedFrom(h, h0, levels, p)
  }

  /** `n` canonical levels, none built yet. */
  function EmptyLevels(n: nat): (r: seq<seq<Node>>)
    ensures |r| == n && forall k :: 0 <= k < n ==> r[k] == []
  {
    if n == 0 then [] else EmptyLevels(n - 1) + [[]]
  }

  /** After the leaf pass of DAG.cpp:74-160. */
  function LeafHeap(h0: Heap, levels: nat): Heap
    requires 3 <= levels && |h0.svo| == levels - 2
  {
    var unique := Dedup(Sort(h0.svoLeaves, LeafLe));
    Heap(h0.svo[levels - 3 := RewriteLeafLevel(h0.svo[levels - 3], h0.svoLeaves, unique)],
         EmptyLevels(levels - 2), h0.svoLeaves, unique)
  }

  /** After the branch pass at parent level p (DAG.cpp:172-265). */
  function BranchHeap(h: Heap, p: nat, unique: seq<Node>): Heap
    requires p + 1 < |h.svo| && p + 1 < |h.uniq|
  {
    h.(svo := h.svo[p := RewriteLevel(h.svo[p], h.svo[p + 1], unique)], uniq := h.uniq[p + 1 := unique])
  }

  /** After the root copy (DAG.cpp:272-275). */
  function RootHeap(h: Heap): Heap
    requires 0 < |h.svo| && 0 < |h.svo[0]| && 0 < |h.uniq|
  {
    h.(uniq := h.uniq[0 := [h.svo[0][0]]])
  }

  /** A redirected leaf-parent node means what the original node means. */
  lemma LeafNodeStep(h0: Heap, h: Heap, levels: nat, n: Node, morton: nat)
    requires 3 <= levels && WellFormed(n) && OrigRefs(n, |h0.svoLeaves|)
    requires h.svoLeaves == h0.svoLeaves
    requires forall x :: x in h0.svoLeaves ==> x in h.uniqueLeaves
    ensures Occupied(h, levels, levels - 3, RewriteLeafNode(n, h0.svoLeaves, h.uniqueLeaves), morton)
        == Occupied(h0, levels, levels - 3, n, morton)
  {
    var d := Digit(morton, levels, levels - 3);
    var c := n.children[d];
    if c != Null {
      var value := h0.svoLeaves[c.slot];
      var c2 := RewriteLeafNode(n, h0.svoLeaves, h.uniqueLeaves).children[d];
      assert c2 == RewriteLeafRef(c, value, h.uniqueLeaves);
      assert LeafAt(h, c2) == value;
    }
  }

  /** A redirected branch node means what the original node means, provided the level
      below already does and the canonical level holds every node of it. */
  lemma BranchNodeStep(h: Heap, h2: Heap, h0: Heap, levels: nat, p: nat, n: Node, morton: nat,
                        level: seq<Node>, unique: seq<Node>)
    requires 3 <= levels && p + 3 < levels
    requires LevelSem(h, h0, levels, p + 1)
    requires WellFormed(n) && OrigRefs(n, |SvoLevel(h0, p + 1)|)
    requires level == SvoLevel(h, p + 1) && unique == UniqLevel(h2, p + 1)
    requires forall x :: x in level ==> x in unique
    requires AgreeBelow(h, h2, levels, p + 1)
    ensures Occupied(h2, levels, p, RewriteNode(n, level, unique), morton) == Occupied(h0, levels, p, n, morton)
  {
    var d := Digit(morton, levels, p);
    var c := n.children[d];
    if c != Null {
      var target := SvoLevel(h, p + 1)[c.slot];
      var c2 := RewriteNode(n, SvoLevel(h, p + 1), unique).children[d];
      assert c2 == RewriteNodeRef(c, target, unique);
      assert Deref(h2, p + 1, c2) == target;
      OccupiedFrame(h, h2, levels, p + 1, target, morton);
      assert Deref(h0, p + 1, c) == SvoLevel(h0, p + 1)[c.slot];
    }
  }

  /** The leaf pass establishes the loop state for the first branch pass. */
  lemma LeafStep(h0: Heap, levels: nat)
    requires OctreeShape(h0, levels)
    ensures Inv(LeafHeap(h0, levels), h0, levels, levels - 4)
  {
    var h := LeafHeap(h0, levels);
    var k := levels - 3;
    CanonicalMembers(h0.svoLeaves, LeafLe);
    forall s, morton | 0 <= s < |SvoLevel(h, k)|
      ensures Occupied(h, levels, k, SvoLevel(h, k)[s], morton) == Occupied(h0, levels, k, SvoLevel(h0, k)[s], morton)
    {
      LeafNodeStep(h0, h, levels, h0.svo[k][s], morton);
    }
    forall i | 0 <= i < |h.svo[k]|
      ensures WellFormed(h.svo[k][i]) && LeafRefs(h.svo[k][i], |h.uniqueLeaves|, h.svoLeaves)
    {
      var n := h0.svo[k][i];
      assert OrigRefs(n, |h0.svoLeaves|);
      forall j | 0 <= j < |n.children| && n.children[j] != Null
        ensures h0.svoLeaves[n.children[j].slot] in h.uniqueLeaves
      {
        assert h0.svoLeaves[n.children[j].slot] in h0.svoLeaves;
      }
    }
  }

  /** The redirected parent level means what the original one means. */
  lemma BranchSem(h: Heap, h0: Heap, levels: nat, p: nat, unique: seq<Node>)
    requires 3 <= levels && p + 3 < levels && |h.svo| == levels - 2 && |h.uniq| == levels - 2
    requires OctreeShape(h0, levels) && h.svo[p] == h0.svo[p]
    requires LevelSem(h, h0, levels, p + 1)
    requires forall x :: x in h.svo[p + 1] ==> x in unique
    ensures LevelSem(BranchHeap(h, p, unique), h0, levels, p)
  {
    var h2 := BranchHeap(h, p, unique);
    assert AgreeBelow(h, h2, levels, p + 1);
    forall s, morton | 0 <= s < |SvoLevel(h2, p)|
      ensures Occupied(h2, levels, p, SvoLevel(h2, p)[s], morton) == Occupied(h0, levels, p, SvoLevel(h0, p)[s], morton)
    {
      BranchNodeStep(h, h2, h0, levels, p, h0.svo[p][s], morton, h.svo[p + 1], h2.uniq[p + 1]);
    }
  }

  /** The redirected parent level points only into the new canonical level. */
  lemma BranchParentsClosed(h: Heap, levels: nat, p: nat, unique: seq<Node>)
    requires 3 <= levels && p + 3 < levels && |h.svo| == levels - 2 && |h.uniq| == levels - 2
    requires forall x :: x in h.svo[p + 1] ==> x in unique
    requires forall i :: 0 <= i < |h.svo[p]| ==> WellFormed(h.svo[p][i]) && OrigRefs(h.svo[p][i], |h.svo[p + 1]|)
    ensures LevelClosed(BranchHeap(h, p, unique), levels, p, BranchHeap(h, p, unique).svo[p])
  {
    var h2 := BranchHeap(h, p, unique);
    forall i | 0 <= i < |h2.svo[p]|
      ensures WellFormed(h2.svo[p][i]) && UniqueRefs(h2.svo[p][i], |unique|)
    {
      var n := h.svo[p][i];
      forall j | 0 <= j < |n.children| && n.children[j] != Null
        ensures OrigNode(h.svo[p + 1], n.children[j]) in unique
      {
        assert h.svo[p + 1][n.children[j].slot] in h.svo[p + 1];
      }
    }
  }

  /** Whether a level is closed depends only on the canonical level below it. */
  lemma LevelClosedFrame(h: Heap, h2: Heap, levels: nat, k: nat, nodes: seq<Node>)
    requires UniqLevel(h, k + 1) == UniqLevel(h2, k + 1)
    requires h.uniqueLeaves == h2.uniqueLeaves && h.svoLeaves == h2.svoLeaves
    requires LevelClosed(h, levels, k, nodes)
    ensures LevelClosed(h2, levels, k, nodes)
  {
  }

  lemma BranchClosed(h: Heap, levels: nat, p: nat, unique: seq<Node>)
    requires 3 <= levels && p + 3 < levels && |h.svo| == levels - 2 && |h.uniq| == levels - 2
    requires forall x :: x in h.svo[p + 1] ==> x in unique
    requires forall i :: 0 <= i < |h.svo[p]| ==> WellFormed(h.svo[p][i]) && OrigRefs(h.svo[p][i], |h.svo[p + 1]|)
    requires ClosedFrom(h, levels, p)
    ensures ClosedFrom(BranchHeap(h, p, unique), levels, p - 1)
  {
    var h2 := BranchHeap(h, p, unique);
    BranchParentsClosed(h, levels, p, unique);
    forall k | p + 1 <= k < levels - 2
      ensures LevelClosed(h2, levels, k, h2.svo[k])
    {
      LevelClosedFrame(h, h2, levels, k, h.svo[k]);
    }
  }

  /** The new canonical level is the canonical copy of the level below the parents; the
      deeper canonical levels are untouched. */
  lemma BranchCanon(h: Heap, levels: nat, p: nat, unique: seq<Node>)
    requires 3 <= levels && p + 3 < levels && |h.svo| == levels - 2 && |h.uniq| == levels - 2
    requires CanonicalFrom(h, levels, p)
    requires unique == Dedup(Sort(h.svo[p + 1], NodeLe))
    ensures CanonicalFrom(BranchHeap(h, p, unique), levels, p - 1)
  {
    var h2 := BranchHeap(h, p, unique);
    forall k | p + 1 <= k < levels - 2
      ensures h2.uniq[k] == Dedup(Sort(h2.svo[k], NodeLe))
    {
      assert h2.svo[k] == h.svo[k];
      if k > p + 1 {
        assert h2.uniq[k] == h.uniq[k];
      }
    }
  }

  /** The new canonical level holds nodes of the level below the parents only; the deeper
      canonical levels are untouched and none above is built yet. */
  lemma BranchDrawn(h: Heap, levels: nat, p: nat, unique: seq<Node>)
    requires 3 <= levels && p + 3 < levels && |h.svo| == levels - 2 && |h.uniq| == levels - 2
    requires DrawnFrom(h, levels, p) && EmptyAbove(h, p)
    requires forall x :: x in unique ==> x in h.svo[p + 1]
    ensures DrawnFrom(BranchHeap(h, p, unique), levels, p - 1)
    ensures EmptyAbove(BranchHeap(h, p, unique), p - 1)
  {
    var h2 := BranchHeap(h, p, unique);
    forall k, x | p + 1 <= k < levels - 2 && x in h2.uniq[k]
      ensures x in h2.svo[k]
    {
      assert h2.svo[k] == h.svo[k];
      if k > p + 1 {
        assert h2.uniq[k] == h.uniq[k];
      }
    }
    forall k | 0 <= k <= p
      ensures h2.uniq[k] == []
    {
      assert h2.uniq[k] == h.uniq[k];
    }
  }

  /** The branch pass changes parent level p and canonical level p+1 only. */
  lemma BranchFrame(h: Heap, h0: Heap, levels: nat, p: nat, unique: seq<Node>)
    requires 3 <= levels && p + 3 < levels && |h.svo| == levels - 2 && |h.uniq| == levels - 2
    requires |h0.svo| == levels - 2
    requires Untouched(h, h0, p) && RedirectedFrom(h, h0, levels, p)
    ensures Untouched(BranchHeap(h, p, unique), h0, p - 1)
    ensures RedirectedFrom(BranchHeap(h, p, unique), h0, levels, p - 1)
  {
    var h2 := BranchHeap(h, p, unique);
    forall k | p - 1 < k < levels - 3
      ensures h2.svo[k] == RewriteLevel(h0.svo[k], h2.svo[k + 1], h2.uniq[k + 1])
    {
      assert h2.svo[k + 1] == h.svo[k + 1];
      if k == p {
        assert h.svo[p] == h0.svo[p];
      } else {
        assert h2.svo[k] == h.svo[k] && h2.uniq[k + 1] == h.uniq[k + 1];
      }
    }
    assert h2.svo[levels - 3] == h.svo[levels - 3];
  }

  /** The leaf-parent level of the octree is well formed and points into the (non-empty)
      leaf level. */
  lemma LeafParentsShape(h0: Heap, levels: nat, parents: seq<Node>)
    requires OctreeShape(h0, levels) && parents == h0.svo[levels - 3]
    ensures |h0.svoLeaves| >= 1
    ensures forall i :: 0 <= i < |parents| ==> WellFormed(parents[i]) && OrigRefs(parents[i], |h0.svoLeaves|)
  {
    PowPositive(8, levels - 2);
  }

  /** Between passes, the next parent level is still original: well formed, pointing into
      the (non-empty) level below. */
  lemma ParentsShape(h: Heap, h0: Heap, levels: nat, p: nat)
    requires Inv(h, h0, levels, p)
    ensures |h.svo[p + 1]| >= 1
    ensures forall i :: 0 <= i < |h.svo[p]| ==> WellFormed(h.svo[p][i]) && OrigRefs(h.svo[p][i], |h.svo[p + 1]|)
  {
    PowPositive(8, p + 1);
    assert h.svo[p] == h0.svo[p];
    assert |h.svo[p + 1]| == |h0.svo[p + 1]| == Pow(8, p + 1);
    assert BelowSize(h0, levels, p) == |h0.svo[p + 1]|;
  }

  /** The branch pass at level p preserves the loop state, one level further up. */
  lemma BranchStep(h: Heap, h0: Heap, levels: nat, p: nat, unique: seq<Node>)
    requires Inv(h, h0, levels, p)
    requires forall x :: x in unique <==> x in h.svo[p + 1]
    ensures Inv(BranchHeap(h, p, unique), h0, levels, p - 1)
  {
    assert h.svo[p] == h0.svo[p];
    BranchSem(h, h0, levels, p, unique);
    BranchClosed(h, levels, p, unique);
    BranchDrawn(h, levels, p, unique);
    BranchFrame(h, h0, levels, p, unique);
  }

  /** Everything the compaction delivers: the octree's levels redirected in place, the
      canonical copy of every level, and a closed DAG that means what the octree meant. */
  ghost predicate Compacted(hf: Heap, h0: Heap, levels: nat) {
    && CanonicalDag(hf, levels)
    && |hf.svo| == levels - 2 && |h0.svo| == levels - 2
    && |hf.svo[0]| == 1 && hf.uniq[0] == [hf.svo[0][0]]
    && hf.svoLeaves == h0.svoLeaves
    && hf.uniqueLeaves == Dedup(Sort(h0.svoLeaves, LeafLe))
    && (forall k :: 1 <= k < levels - 2 ==> hf.uniq[k] == Dedup(Sort(hf.svo[k], NodeLe)))
    && RedirectedFrom(hf, h0, levels, -1)
    && assert 3 < levels ==> hf.svo[0] == RewriteLevel(h0.svo[0], hf.svo[1], hf.uniq[1]);
      forall morton ::
      Occupied(hf, levels, 0, hf.uniq[0][0], morton) == Occupied(h0, levels, 0, h0.svo[0][0], morton)
  }

  /** The copied root means what the octree's root means. */
  lemma RootSem(h: Heap, h0: Heap, levels: nat)
    requires 3 <= levels && |h.svo| == levels - 2 && |h.uniq| == levels - 2 && 0 < |h.svo[0]|
    requires LevelSem(h, h0, levels, 0)
    ensures forall morton ::
      Occupied(RootHeap(h), levels, 0, RootHeap(h).uniq[0][0], morton) == Occupied(h0, levels, 0, h0.svo[0][0], morton)
  {
    var hf := RootHeap(h);
    assert AgreeBelow(h, hf, levels, 0);
    forall morton
      ensures Occupied(hf, levels, 0, hf.uniq[0][0], morton) == Occupied(h0, levels, 0, h0.svo[0][0], morton)
    {
      OccupiedFrame(h, hf, levels, 0, h.svo[0][0], morton);
    }
  }

  /** Every canonical level, the copied root's included, is closed. */
  lemma RootClosed(h: Heap, levels: nat)
    requires 3 <= levels && |h.svo| == levels - 2 && |h.uniq| == levels - 2 && |h.svo[0]| == 1
    requires ClosedFrom(h, levels, -1) && DrawnFrom(h, levels, -1)
    ensures CanonicalDag(RootHeap(h), levels)
  {
    var hf := RootHeap(h);
    forall k | 0 <= k < levels - 2
      ensures LevelClosed(hf, levels, k, hf.uniq[k])
    {
      assert LevelClosed(h, levels, k, h.svo[k]);
      if k == 0 {
        assert LevelClosed(hf, levels, 0, h.svo[0]);
      } else {
        assert hf.uniq[k] == h.uniq[k];
        forall i | 0 <= i < |hf.uniq[k]|
          ensures hf.uniq[k][i] in h.svo[k]
        {
          assert hf.uniq[k][i] in hf.uniq[k];
        }
        LevelClosedFrame(h, hf, levels, k, hf.uniq[k]);
      }
    }
  }

  /** The root copy completes a closed DAG that means what the octree means. */
  lemma RootStep(h: Heap, h0: Heap, levels: nat)
    requires Inv(h, h0, levels, -1) && CanonicalFrom(h, levels, -1)
    ensures |h.svo[0]| == 1
    ensures Compacted(RootHeap(h), h0, levels)
  {
    var hf := RootHeap(h);
    assert |h0.svo[0]| == Pow(8, 0) == 1;
    RootSem(h, h0, levels);
    RootClosed(h, levels);
    assert forall k :: 1 <= k < levels - 2 ==> hf.uniq[k] == h.uniq[k];
    assert RedirectedFrom(hf, h0, levels, -1);
  }

  /** A compacted DAG shares every subtree: no canonical level holds two equal nodes, and no
      two canonical leaf words are equal; each is strictly increasing in its sort order. */
  lemma CompactedStrict(hf: Heap, h0: Heap, levels: nat, k: nat)
    requires Compacted(hf, h0, levels) && k < levels - 2
    ensures StrictlySorted(hf.uniq[k], NodeLe)
    ensures StrictlySorted(hf.uniqueLeaves, LeafLe)
  {
    NodeLeTotalOrder();
    LeafLeTotalOrder();
    if 1 <= k && |hf.svo[k]| >= 1 {
      CanonicalLevel(hf.svo[k], NodeLe);
    }
    if |h0.svoLeaves| >= 1 {
      CanonicalLevel(h0.svoLeaves, LeafLe);
    }
  }

  /** One whole branch pass at parent level p: the child level's canonical copy, and the
      parent level redirected to it. */
  function StepHeap(h: Heap, p: nat): Heap
    requires p + 1 < |h.svo| && p + 1 < |h.uniq|
  {
    BranchHeap(h, p, Dedup(Sort(h.svo[p + 1], NodeLe)))
  }

  /** A whole branch pass preserves the loop state and the canonical copies, one level
      further up. */
  lemma StepInv(h: Heap, h0: Heap, levels: nat, p: nat, above: int, h': Heap)
    requires Inv(h, h0, levels, p) && CanonicalFrom(h, levels, p) && above == p - 1 && h' == StepHeap(h, p)
    ensures Inv(h', h0, levels, above) && CanonicalFrom(h', levels, above)
  {
    var unique := Dedup(Sort(h.svo[p + 1], NodeLe));
    CanonicalMembers(h.svo[p + 1], NodeLe);
    BranchStep(h, h0, levels, p, unique);
    BranchCanon(h, levels, p, unique);
  }

  /** The leaf pass (DAG.cpp:74-160): the canonical leaf words, and the leaf-parent level
      redirected to them. */
  method LeafPass(parents: array<Node>, svoLeaves: array<Word64>) returns (uniqueLeafs: array<Word64>)
    requires svoLeaves.Length >= 1
    requires forall i :: 0 <= i < parents.Length ==>
      WellFormed(parents[i]) && OrigRefs(parents[i], svoLeaves.Length)
    modifies parents
    ensures fresh(uniqueLeafs) && uniqueLeafs[..] == Dedup(Sort(svoLeaves[..], LeafLe))
    ensures parents[..] == RewriteLeafLevel(old(parents[..]), svoLeaves[..], uniqueLeafs[..])
  {
    uniqueLeafs := Canonicalize(svoLeaves, LeafLe);
    RewriteLeafParents(parents, svoLeaves, uniqueLeafs);
  }

  /** One branch pass (DAG.cpp:172-265): the canonical copy of the child level, and the
      parent level redirected to it. */
  method BranchPass(parents: array<Node>, children: array<Node>) returns (uniqueChildren: array<Node>)
    requires parents != children && children.Length >= 1
    requires forall i :: 0 <= i < parents.Length ==>
      WellFormed(parents[i]) && OrigRefs(parents[i], children.Length)
    modifies parents
    ensures fresh(uniqueChildren) && uniqueChildren[..] == Dedup(Sort(children[..], NodeLe))
    ensures parents[..] == RewriteLevel(old(parents[..]), children[..], uniqueChildren[..])
  {
    uniqueChildren := Canonicalize(children, NodeLe);
    RewriteParents(parents, children, uniqueChildren);
  }

  /** The branch pass at parent level p on the buffers mirrored by `hs`, and the state it
      leads to. */
  method BranchPassAt(levels: nat, p: nat, svo: seq<array<Node>>, newLevels: seq<array<Node>>, ghost hs: Heap)
    returns (newLevels': seq<array<Node>>, ghost hs': Heap)
    requires p + 1 < levels - 2 && |hs.svo| == levels - 2 && |hs.uniq| == levels - 2
    requires |svo| == levels - 2 && |newLevels| == levels - 2
    requires forall k :: 0 <= k < levels - 2 ==> svo[p] != newLevels[k] && (k != p ==> svo[p] != svo[k])
    requires forall k :: 0 <= k < levels - 2 ==> svo[k][..] == hs.svo[k] && newLevels[k][..] == hs.uniq[k]
    requires |hs.svo[p + 1]| >= 1
    requires forall i :: 0 <= i < |hs.svo[p]| ==> WellFormed(hs.svo[p][i]) && OrigRefs(hs.svo[p][i], |hs.svo[p + 1]|)
    modifies svo[p]
    ensures hs' == StepHeap(hs, p)
    ensures |newLevels'| == levels - 2 && fresh(newLevels'[p + 1])
    ensures newLevels' == newLevels[p + 1 := newLevels'[p + 1]]
    ensures forall k :: 0 <= k < levels - 2 ==> svo[k][..] == hs'.svo[k] && newLevels'[k][..] == hs'.uniq[k]
  {
    var uniqueChildren := BranchPass(svo[p], svo[p + 1]);
    newLevels' := newLevels[p + 1 := uniqueChildren];
    hs' := StepHeap(hs, p);
    forall k | 0 <= k < levels - 2
      ensures svo[k][..] == hs'.svo[k] && newLevels'[k][..] == hs'.uniq[k]
    {
      if k != p {
        assert hs'.svo[k] == hs.svo[k];
      }
      if k != p + 1 {
        assert hs'.uniq[k] == hs.uniq[k];
      }
    }
  }

  /** The state after the branch passes at the parent levels from the lowest one (the level
      above the leaf parents, `|h.svo| - 2`) down to `p + 1`, one `StepHeap` per level,
      starting from `h`. */
  function Down(h: Heap, p: int): (r: Heap)
    requires -1 <= p <= |h.svo| - 2 && |h.svo| <= |h.uniq|
    ensures |r.svo| == |h.svo| && |r.uniq| == |h.uniq|
    decreases |h.svo| - 2 - p
  {
    if p == |h.svo| - 2 then h else StepHeap(Down(h, p + 1), p + 1)
  }

  /** The branch passes keep the loop state: starting from the state at L-4, the state after
      the passes down to `p + 1` satisfies the invariant and canonicity at `p`. */
  lemma {:induction false} DownInv(h0: Heap, hs0: Heap, levels: nat, p: int)
    requires Inv(hs0, h0, levels, levels - 4) && CanonicalFrom(hs0, levels, levels - 4)
    requires -1 <= p <= levels - 4
    ensures Inv(Down(hs0, p), h0, levels, p)
    ensures CanonicalFrom(Down(hs0, p), levels, p)
    decreases levels - 4 - p
  {
    if p < levels - 4 {
      var below := p + 1;
      DownInv(h0, hs0, levels, below);
      DownStep(h0, hs0, levels, p, below);
    } else {
      assert Down(hs0, p) == hs0;
    }
  }

  /** Each level below the start of `Down` adds one `StepHeap`. */
  lemma DownUnfold(h: Heap, p: int, below: nat)
    requires -1 <= p < |h.svo| - 2 && |h.svo| <= |h.uniq| && below == p + 1
    ensures Down(h, p) == StepHeap(Down(h, below), below)
  {
  }

  /** The pass at `p + 1` takes the loop state after the passes down to `p + 2` to the one
      after the passes down to `p + 1`; `below` is `p + 1`. */
  lemma DownStep(h0: Heap, hs0: Heap, levels: nat, p: int, below: nat)
    requires |hs0.svo| == levels - 2 <= |hs0.uniq| && -1 <= p < levels - 4 && below == p + 1
    requires Inv(Down(hs0, below), h0, levels, below) && CanonicalFrom(Down(hs0, below), levels, below)
    ensures Inv(Down(hs0, p), h0, levels, p) && CanonicalFrom(Down(hs0, p), levels, p)
  {
    DownUnfold(hs0, p, below);
    StepInv(Down(hs0, below), h0, levels, below, p, Down(hs0, p));
  }

  /** The pass at parent level `p` can run on `h`: the child level is non-empty and every
      slot of the parent level is null or an original index into it. */
  predicate PassReady(h: Heap, p: nat)
  {
    p + 1 < |h.svo| && |h.svo[p + 1]| >= 1
    && forall i :: 0 <= i < |h.svo[p]| ==> WellFormed(h.svo[p][i]) && OrigRefs(h.svo[p][i], |h.svo[p + 1]|)
  }

  /** Every iteration of the branch-pass loop finds its level ready for the pass. */
  lemma DownShape(h0: Heap, hs0: Heap, levels: nat, p: nat)
    requires Inv(hs0, h0, levels, levels - 4) && CanonicalFrom(hs0, levels, levels - 4)
    requires p <= levels - 4
    ensures PassReady(Down(hs0, p), p)
  {
    DownInv(h0, hs0, levels, p);
    ParentsShape(Down(hs0, p), h0, levels, p);
  }

  /** One iteration of the branch-pass loop (DAG.cpp:172-265): the pass at `p` takes the
      buffers from the state after the passes down to `p + 1` to the state after the pass
      at `p`. */
  method PassStep(levels: nat, p: nat, svo: seq<array<Node>>, newLevels: seq<array<Node>>, ghost hs0: Heap)
    returns (newLevels': seq<array<Node>>)
    requires p + 4 <= levels && |hs0.svo| == levels - 2 && |hs0.uniq| == levels - 2
    requires PassReady(Down(hs0, p), p)
    requires |svo| == levels - 2 && |newLevels| == levels - 2
    requires forall k :: 0 <= k < levels - 2 ==> svo[p] != newLevels[k] && (k != p ==> svo[p] != svo[k])
    requires forall k :: 0 <= k < levels - 2 ==>
      svo[k][..] == Down(hs0, p).svo[k] && newLevels[k][..] == Down(hs0, p).uniq[k]
    modifies svo[p]
    ensures |newLevels'| == levels - 2 && fresh(newLevels'[p + 1])
    ensures newLevels' == newLevels[p + 1 := newLevels'[p + 1]]
    ensures forall k :: 0 <= k < levels - 2 ==>
      svo[k][..] == Down(hs0, p - 1).svo[k] && newLevels'[k][..] == Down(hs0, p - 1).uniq[k]
  {
    ghost var next;
    newLevels', next := BranchPassAt(levels, p, svo, newLevels, Down(hs0, p));
  }

  /** The loop of the branch passes (DAG.cpp:170-269): from the state `hs0` before the pass
      at L-4, each iteration performs the pass at `parentLevelNum`; the loop ends in the state
      after the pass at 0. */
  method RunPasses(levels: nat, svo: seq<array<Node>>, levels0: seq<array<Node>>, ghost hs0: Heap)
    returns (newLevels: seq<array<Node>>)
    requires 3 <= levels && |hs0.svo| == levels - 2 && |hs0.uniq| == levels - 2
    requires forall p :: 0 <= p <= levels - 4 ==> PassReady(Down(hs0, p), p)
    requires |svo| == levels - 2 && |levels0| == levels - 2
    requires forall i, j :: 0 <= i < j < |svo| ==> svo[i] != svo[j]
    requires forall k, j :: 0 <= k < |levels0| && 0 <= j < |svo| ==> levels0[k] != svo[j]
    requires forall k :: 0 <= k < levels - 2 ==> svo[k][..] == hs0.svo[k] && levels0[k][..] == hs0.uniq[k]
    modifies set k | 0 <= k < |svo| :: svo[k]
    ensures |newLevels| == levels - 2
    ensures forall k :: 0 <= k < levels - 2 ==> newLevels[k] == levels0[k] || fresh(newLevels[k])
    ensures forall k :: 0 <= k < levels - 2 ==>
      svo[k][..] == Down(hs0, -1).svo[k] && newLevels[k][..] == Down(hs0, -1).uniq[k]
  {
    newLevels := levels0;
    var parentLevelNum: int := levels - 4;
    while parentLevelNum >= 0
      invariant -1 <= parentLevelNum <= levels - 4
      invariant |newLevels| == levels - 2
      invariant forall k :: 0 <= k < levels - 2 ==> newLevels[k] == levels0[k] || fresh(newLevels[k])
      invariant forall k :: 0 <= k < levels - 2 ==>
        svo[k][..] == Down(hs0, parentLevelNum).svo[k]
        && newLevels[k][..] == Down(hs0, parentLevelNum).uniq[k]
    {
      newLevels := PassStep(levels, parentLevelNum, svo, newLevels, hs0);
      parentLevelNum := parentLevelNum - 1;
    }
  }

  /** The branch passes of `build` (DAG.cpp:170-269): for each parent level from L-4 up to 0,
      canonicalise the level below it and redirect it.  They start from the state the leaf
      pass leaves behind and end in the state `hs`, which the root copy completes. */
  method BranchPasses(levels: nat, svo: seq<array<Node>>, levels0: seq<array<Node>>,
                      svoLeaves: array<Word64>, uniqueLeafs: array<Word64>, ghost h0: Heap)
    returns (newLevels: seq<array<Node>>, ghost hs: Heap)
    requires OctreeShape(h0, levels) && |svo| == levels - 2 && |levels0| == levels - 2
    requires forall i, j :: 0 <= i < j < |svo| ==> svo[i] != svo[j]
    requires forall k, j :: 0 <= k < |levels0| && 0 <= j < |svo| ==> levels0[k] != svo[j]
    requires forall k :: 0 <= k < levels - 3 ==> svo[k][..] == h0.svo[k]
    requires svo[levels - 3][..] == RewriteLeafLevel(h0.svo[levels - 3], h0.svoLeaves, uniqueLeafs[..])
    requires forall k :: 0 <= k < levels - 2 ==> levels0[k][..] == []
    requires svoLeaves[..] == h0.svoLeaves && uniqueLeafs[..] == Dedup(Sort(h0.svoLeaves, LeafLe))
    modifies set k | 0 <= k < |svo| :: svo[k]
    ensures |newLevels| == levels - 2 && |hs.svo| == levels - 2 && |hs.uniq| == levels - 2
    ensures forall k :: 0 <= k < levels - 2 ==> newLevels[k] == levels0[k] || fresh(newLevels[k])
    ensures forall k :: 0 <= k < levels - 2 ==> svo[k][..] == hs.svo[k] && newLevels[k][..] == hs.uniq[k]
    ensures hs.svoLeaves == svoLeaves[..] && hs.uniqueLeaves == uniqueLeafs[..]
    ensures |hs.svo[0]| == 1 && Compacted(RootHeap(hs), h0, levels) == true
  {
    ghost var hs0 := LeafHeap(h0, levels);
    LeafStep(h0, levels);
    forall p | 0 <= p <= levels - 4
      ensures PassReady(Down(hs0, p), p)
    {
      DownShape(h0, hs0, levels, p);
    }
    newLevels := RunPasses(levels, svo, levels0, hs0);
    hs := Down(hs0, -1);
    DownInv(h0, hs0, levels, -1);
    RootStep(hs, h0, levels);
  }

  /** The root copy (DAG.cpp:272-275): the canonical root level is a fresh one-node copy of
      the redirected root. */
  method CopyRoot(levels: nat, svo: seq<array<Node>>, newLevels: seq<array<Node>>, ghost hs: Heap)
    returns (rooted: seq<array<Node>>, ghost hf: Heap)
    requires 3 <= levels && |svo| == levels - 2 && |newLevels| == levels - 2
    requires |hs.svo| == levels - 2 && |hs.uniq| == levels - 2 && |hs.svo[0]| == 1
    requires forall k :: 0 <= k < levels - 2 ==> svo[k][..] == hs.svo[k] && newLevels[k][..] == hs.uniq[k]
    ensures hf == RootHeap(hs) && |rooted| == levels - 2
    ensures fresh(rooted[0]) && forall k :: 1 <= k < levels - 2 ==> rooted[k] == newLevels[k]
    ensures forall k :: 0 <= k < levels - 2 ==> svo[k][..] == hf.svo[k] && rooted[k][..] == hf.uniq[k]
  {
    assert svo[0][..] == hs.svo[0];
    var newRoot := new Node[] [svo[0][0]];
    rooted := newLevels[0 := newRoot];
    hf := RootHeap(hs);
  }

  /** `build` up to the root copy (DAG.cpp:53-275): canonicalise the leaf words and redirect
      the leaf-parent level, then run the branch passes, and finally copy the root.  The
      octree's own buffers (whose contents are `s0`) are rewritten in place; the canonical
      levels are fresh. */
  method Compact(levels: nat, svo: seq<array<Node>>, svoLeaves: array<Word64>,
                 ghost s0: seq<seq<Node>>, ghost leaves0: seq<Word64>)
    returns (newLevels: seq<array<Node>>, uniqueLeafs: array<Word64>, ghost hf: Heap)
    requires 3 <= levels && |svo| == levels - 2 && |s0| == levels - 2
    requires forall i, j :: 0 <= i < j < |svo| ==> svo[i] != svo[j]
    requires forall k :: 0 <= k < |svo| ==> svo[k][..] == s0[k]
    requires svoLeaves[..] == leaves0 && OctreeShape(OriginalHeap(s0, leaves0), levels)
    modifies set k | 0 <= k < |svo| :: svo[k]
    ensures |newLevels| == levels - 2
    ensures fresh(uniqueLeafs) && forall k :: 0 <= k < |newLevels| ==> fresh(newLevels[k])
    ensures |hf.svo| == |hf.uniq| == levels - 2
    ensures forall k :: 0 <= k < levels - 2 ==> hf.svo[k] == svo[k][..] && hf.uniq[k] == newLevels[k][..]
    ensures hf.svoLeaves == svoLeaves[..] && hf.uniqueLeaves == uniqueLeafs[..]
    ensures Compacted(hf, OriginalHeap(s0, leaves0), levels) == true
  {
    ghost var h0 := OriginalHeap(s0, leaves0);

    // Leaf words (DAG.cpp:74-127) and the leaf-parent level (DAG.cpp:133-160).
    LeafParentsShape(h0, levels, h0.svo[levels - 3]);
    uniqueLeafs := LeafPass(svo[levels - 3], svoLeaves);

    // Branch levels (DAG.cpp:170-269); the canonical levels start out empty.
    var placeholder := new Node[0];
    var levels0 := seq(levels - 2, _ => placeholder);
    ghost var hs;
    newLevels, hs := BranchPasses(levels, svo, levels0, svoLeaves, uniqueLeafs, h0);

    newLevels, hf := CopyRoot(levels, svo, newLevels, hs);
  }
}
