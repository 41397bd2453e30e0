/**
 * The orders `std::sort` uses on the two kinds of level (DAG.cpp:76, 186).  Leaf words are
 * compared as unsigned integers.  `SVONode`'s `operator<` is not part of this model; it is
 * taken to be lexicographic over the eight child pointers, and pointers (addresses in the
 * source) are ordered by buffer, then by slot.
 */
module Ordering {
  import opened Octree
  import opened Bits
  import opened Canonical

  predicate LeafLe(a: Word64, b: Word64) {
    a <= b
  }

  function PtrRank(p: Ptr): nat {
    match p
    case Null => 0
    case Orig(_) => 1
    case Unique(_) => 2
    case Packed(_) => 3
  }

  function PtrKey(p: Ptr): nat {
    match p
    case Null => 0
    case Orig(s) => s
    case Unique(s) => s
    case Packed(o) => o
  }

  predicate PtrLt(a: Ptr, b: Ptr) {
    PtrRank(a) < PtrRank(b) || (PtrRank(a) == PtrRank(b) && PtrKey(a) < PtrKey(b))
  }

  /** Lexicographic order on sequences of pointers. */
  predicate PtrsLe(a: seq<Ptr>, b: seq<Ptr>) {
    |a| == 0 || (|b| > 0 && (PtrLt(a[0], b[0]) || (a[0] == b[0] && PtrsLe(a[1..], b[1..]))))
  }

  predicate NodeLe(a: Node, b: Node) {
    PtrsLe(a.children, b.children)
  }

  lemma PtrLtTrichotomy(a: Ptr, b: Ptr)
    ensures PtrLt(a, b) || PtrLt(b, a) || a == b
    ensures !(PtrLt(a, b) && PtrLt(b, a))
  {
  }

  lemma {:induction false} PtrsLeTotal(a: seq<Ptr>, b: seq<Ptr>)
    ensures PtrsLe(a, b) || PtrsLe(b, a)
  {
    if |a| > 0 && |b| > 0 {
      PtrLtTrichotomy(a[0], b[0]);
      PtrsLeTotal(a[1..], b[1..]);
    }
  }

  lemma {:induction false} PtrsLeAntisymmetric(a: seq<Ptr>, b: seq<Ptr>)
    requires PtrsLe(a, b) && PtrsLe(b, a)
    ensures a == b
  {
    if |a| > 0 && |b| > 0 {
      PtrLtTrichotomy(a[0], b[0]);
      PtrsLeAntisymmetric(a[1..], b[1..]);
      assert a == [a[0]] + a[1..] && b == [b[0]] + b[1..];
    }
  }

  lemma {:induction false} PtrsLeTransitive(a: seq<Ptr>, b: seq<Ptr>, c: seq<Ptr>)
    requires PtrsLe(a, b) && PtrsLe(b, c)
    ensures PtrsLe(a, c)
  {
    if |a| > 0 && |b| > 0 && |c| > 0 && a[0] == b[0] == c[0] {
      PtrsLeTransitive(a[1..], b[1..], c[1..]);
    }
  }

  /** The leaf order is a total order, so the canonical leaf level is strictly increasing. */
  lemma LeafLeTotalOrder()
    ensures TotalOrder(LeafLe)
  {
  }

  /** The node order is a total order. */
  lemma NodeLeTotalOrder()
    ensures TotalOrder(NodeLe)
  {
    forall a: Node, b: Node ensures NodeLe(a, b) || NodeLe(b, a) {
      PtrsLeTotal(a.children, b.children);
    }
    forall a: Node, b: Node | NodeLe(a, b) && NodeLe(b, a) ensures a == b {
      PtrsLeAntisymmetric(a.children, b.children);
    }
    forall a: Node, b: Node, c: Node | NodeLe(a, b) && NodeLe(b, c) ensures NodeLe(a, c) {
      PtrsLeTransitive(a.children, b.children, c.children);
    }
  }
}
