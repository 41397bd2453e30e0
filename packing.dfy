/**
 * The packed levels of the compacted DAG (DAG.cpp:290-393).  The leaf-parent level (L-3)
 * keeps the canonical leaf pointers as they are; every level above resolves each child
 * through the address map built while the level below it was written.
 */
module Packing {
  import opened Octree
  import opened Semantics
  import opened Compaction
  import opened Encoding

  /** Packed level k of a compacted heap. */
  function PackLevel(h: Heap, levels: nat, k: nat): seq<Word>
    requires 3 <= levels && |h.uniq| == levels - 2 && k <= levels - 3
  {
    if k == levels - 3 then EncodeLevel(h.uniq[k], Direct)
    else EncodeLevel(h.uniq[k], Through(OffsetMap(h.uniq[k + 1])))
  }

  /** `addr` is the address map of the packed level `nodes`. */
  ghost predicate AddressMapOf(addr: map<Ptr, Ptr>, nodes: seq<Node>) {
    addr == OffsetMap(nodes)
  }

  /** Every child of a closed canonical level above L-3 has a reference in the address map of
      the level below, so the source's `at` never throws. */
  lemma ClosedResolvable(h: Heap, levels: nat, k: nat, below: nat, m: map<Ptr, Ptr>)
    requires 3 <= levels && |h.uniq| == levels - 2 && k < levels - 3 && below == k + 1
    requires LevelClosed(h, levels, k, h.uniq[k]) && m == OffsetMap(h.uniq[below])
    ensures Resolvable(h.uniq[k], Through(m))
  {
    forall i, j | 0 <= i < |h.uniq[k]| && 0 <= j < |h.uniq[k][i].children| && h.uniq[k][i].children[j] != Null
      ensures h.uniq[k][i].children[j] in m
    {
      assert UniqueRefs(h.uniq[k][i], |UniqLevel(h, k + 1)|);
    }
  }
}
