/**
 * The entities shared by the compaction, the packed encoding and the query of DAG.cpp.
 *
 * The source links nodes with raw `void*` pointers.  Here a pointer is an arena index:
 * the level it points into is implied by the level of the node that holds it (children of
 * a level-k node live in level k+1), and the constructor of `Ptr` says WHICH buffer of that
 * level it points into.
 */
module Octree {
  /** A child pointer.
      - `Null`: an absent octant (`NULL`);
      - `Orig(slot)`: into the octree's own level buffer (`svo.levels[k]`);
      - `Unique(slot)`: into the canonical copy of the level (`newLevels[k]`, i.e. `uniqueLeafs`
        or `uniqueChildren`);
      - `Packed(offset)`: the word at `offset` of a packed level buffer (`levels[k]`). */
  datatype Ptr = Null | Orig(slot: nat) | Unique(slot: nat) | Packed(offset: nat)

  /** `SVONode`: eight child pointers, one per octant. */
  datatype Node = Node(children: seq<Ptr>)

  /** One machine word of a packed level: a node's presence mask or a child reference. */
  datatype Word = Mask(bits: nat) | Pointer(target: Ptr)

  const Octants: nat := 8

  predicate WellFormed(n: Node) {
    |n.children| == Octants
  }

  /** A node with no children; what a pointer that designates nothing reads as. */
  function EmptyNode(): (n: Node)
    ensures WellFormed(n) && forall j :: 0 <= j < Octants ==> n.children[j] == Null
  {
    Node(seq(Octants, _ => Null))
  }

  function Pow(b: nat, e: nat): nat {
    if e == 0 then 1 else b * Pow(b, e - 1)
  }

  lemma {:induction false} PowPositive(b: nat, e: nat)
    requires b > 0
    ensures Pow(b, e) > 0
  {
    if e > 0 {
      PowPositive(b, e - 1);
    }
  }

  lemma {:induction false} PowAdd(b: nat, e1: nat, e2: nat)
    ensures Pow(b, e1 + e2) == Pow(b, e1) * Pow(b, e2)
  {
    if e1 > 0 {
      PowAdd(b, e1 - 1, e2);
      assert Pow(b, e1 + e2) == b * Pow(b, (e1 - 1) + e2);
      MulAssoc(b, Pow(b, e1 - 1), Pow(b, e2));
    }
  }

  lemma MulAssoc(x: int, y: int, z: int)
    ensures x * (y * z) == (x * y) * z
  {
  }

  /** The children that are present, in ascending octant order. */
  function Present(cs: seq<Ptr>): (r: seq<Ptr>)
    ensures |r| <= |cs|
  {
    PresentUpTo(cs, |cs|)
  }

  /** The present children among the first `n` octants, in ascending octant order. */
  function PresentUpTo(cs: seq<Ptr>, n: nat): (r: seq<Ptr>)
    requires n <= |cs|
    ensures |r| <= n
  {
    if n == 0 then []
    else PresentUpTo(cs, n - 1) + (if cs[n - 1] != Null then [cs[n - 1]] else [])
  }

  /** Number of non-null child pointers in a level: `pointerCount` of DAG.cpp:294-304. */
  function PointerCount(nodes: seq<Node>): nat {
    if nodes == [] then 0
    else PointerCount(nodes[..|nodes| - 1]) + |Present(nodes[|nodes| - 1].children)|
  }
}
