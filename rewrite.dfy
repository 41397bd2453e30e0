/**
 * Redirecting child pointers to the canonical copy of the level below (DAG.cpp:133-160 for
 * the leaf-parent level, 232-263 for the branch levels).  For every non-null slot the source
 * reads the value the slot points at, scans the whole canonical array and, on every entry
 * equal to that value, overwrites the slot; there is no `break`, so the last equal entry wins
 * (entries are distinct, so it is the only one).  The leaf scan also stops at once when the
 * value is 0 (DAG.cpp:143), so slots that point at an all-empty leaf word are never redirected.
 */
module Rewrite {
  import opened Wrappers
  import opened Octree
  import opened Bits

  /** The index of the last entry equal to `x`, if any. */
  function LastIndexOf<T(==)>(s: seq<T>, x: T): (r: Option<nat>)
    ensures r.Some? ==> r.value < |s| && s[r.value] == x
    ensures r.Some? ==> forall j :: r.value < j < |s| ==> s[j] != x
    ensures r.None? <==> x !in s
  {
    if s == [] then None
    else if s[|s| - 1] == x then Some(|s| - 1)
    else
      assert s == s[..|s| - 1] + [s[|s| - 1]];
      LastIndexOf(s[..|s| - 1], x)
  }

  /** The scan of the canonical array: every equal entry overwrites the result. */
  method FindLast<T(==)>(a: array<T>, x: T) returns (r: Option<nat>)
    ensures r == LastIndexOf(a[..], x)
  {
    r := None;
    var k := 0;
    while k < a.Length
      invariant 0 <= k <= a.Length
      invariant r == LastIndexOf(a[..k], x)
    {
      assert a[..k + 1][..k] == a[..k];
      if a[k] == x {
        r := Some(k);
      }
      k := k + 1;
    }
    assert a[..k] == a[..];
  }

  /** The leaf word an original leaf-parent slot points at (`*childPointers[j]`). */
  function OrigLeaf(leaves: seq<Word64>, p: Ptr): Word64 {
    if p.Orig? && p.slot < |leaves| then leaves[p.slot] else 0
  }

  /** The node an original branch slot points at. */
  function OrigNode(level: seq<Node>, p: Ptr): Node {
    if p.Orig? && p.slot < |level| then level[p.slot] else EmptyNode()
  }

  /** One leaf-parent slot after the rewrite, given the value it points at. */
  function RewriteLeafRef(p: Ptr, value: Word64, unique: seq<Word64>): (r: Ptr)
    ensures r == Null <==> p == Null
    ensures p != Null && value != 0 && value in unique ==>
      r.Unique? && r.slot < |unique| && unique[r.slot] == value
    ensures value == 0 || value !in unique ==> r == p
  {
    if p == Null || value == 0 then p
    else match LastIndexOf(unique, value)
      case Some(k) => Unique(k)
      case None => p
  }

  /** One leaf-parent node after the leaf pass (DAG.cpp:135-158): null slots stay null; a slot
      whose leaf value is non-zero and among the unique leaves points at that unique leaf;
      a slot whose value is zero, or missing, keeps its old pointer. */
  function RewriteLeafNode(n: Node, leaves: seq<Word64>, unique: seq<Word64>): (r: Node)
    ensures |r.children| == |n.children|
    ensures forall j :: 0 <= j < |n.children| ==> (r.children[j] == Null <==> n.children[j] == Null)
    ensures forall j ::
      (0 <= j < |n.children| && n.children[j] != Null
       && OrigLeaf(leaves, n.children[j]) != 0 && OrigLeaf(leaves, n.children[j]) in unique) ==>
      r.children[j].Unique? && r.children[j].slot < |unique|
      && unique[r.children[j].slot] == OrigLeaf(leaves, n.children[j])
    ensures forall j ::
      (0 <= j < |n.children|
       && (OrigLeaf(leaves, n.children[j]) == 0 || OrigLeaf(leaves, n.children[j]) !in unique)) ==>
      r.children[j] == n.children[j]
  {
    Node(seq(|n.children|, j requires 0 <= j < |n.children| =>
      RewriteLeafRef(n.children[j], OrigLeaf(leaves, n.children[j]), unique)))
  }

  /** One branch slot after the rewrite: the canonical node equal to its old target. */
  function RewriteNodeRef(p: Ptr, target: Node, unique: seq<Node>): (r: Ptr)
    ensures r == Null <==> p == Null
    ensures p != Null && target in unique ==>
      r.Unique? && r.slot < |unique| && unique[r.slot] == target
    ensures target !in unique ==> r == p
  {
    if p == Null then p
    else match LastIndexOf(unique, target)
      case Some(k) => Unique(k)
      case None => p
  }

  /** One branch node after its pass (DAG.cpp:236-262): null slots stay null; a slot whose
      target node is among the unique nodes points at an equal unique node; any other slot
      keeps its old pointer. */
  function RewriteNode(n: Node, level: seq<Node>, unique: seq<Node>): (r: Node)
    ensures |r.children| == |n.children|
    ensures forall j :: 0 <= j < |n.children| ==> (r.children[j] == Null <==> n.children[j] == Null)
    ensures forall j ::
      (0 <= j < |n.children| && n.children[j] != Null && OrigNode(level, n.children[j]) in unique) ==>
      r.children[j].Unique? && r.children[j].slot < |unique|
      && unique[r.children[j].slot] == OrigNode(level, n.children[j])
    ensures forall j :: 0 <= j < |n.children| && OrigNode(level, n.children[j]) !in unique ==>
      r.children[j] == n.children[j]
  {
    Node(seq(|n.children|, j requires 0 <= j < |n.children| =>
      RewriteNodeRef(n.children[j], OrigNode(level, n.children[j]), unique)))
  }

  /** A whole leaf-parent level after the leaf pass. */
  function RewriteLeafLevel(parents: seq<Node>, leaves: seq<Word64>, unique: seq<Word64>): seq<Node> {
    seq(|parents|, i requires 0 <= i < |parents| => RewriteLeafNode(parents[i], leaves, unique))
  }

  /** A whole branch level after the pass that redirects it to the canonical level below. */
  function RewriteLevel(parents: seq<Node>, level: seq<Node>, unique: seq<Node>): seq<Node> {
    seq(|parents|, i requires 0 <= i < |parents| => RewriteNode(parents[i], level, unique))
  }

  /** Every slot is null or an in-range index into the original buffer below. */
  predicate OrigRefs(n: Node, below: nat) {
    forall j :: 0 <= j < |n.children| ==>
      n.children[j] == Null || (n.children[j].Orig? && n.children[j].slot < below)
  }

  /** The leaf-parent pass (DAG.cpp:133-160), in place on the leaf-parent level. */
  method RewriteLeafParents(parents: array<Node>, leaves: array<Word64>, unique: array<Word64>)
    requires forall i :: 0 <= i < parents.Length ==>
      WellFormed(parents[i]) && OrigRefs(parents[i], leaves.Length)
    modifies parents
    ensures forall i :: 0 <= i < parents.Length ==>
      parents[i] == RewriteLeafNode(old(parents[i]), leaves[..], unique[..])
  {
    for i := 0 to parents.Length
      invariant forall i' :: 0 <= i' < i ==>
        parents[i'] == RewriteLeafNode(old(parents[i']), leaves[..], unique[..])
      invariant forall i' :: i <= i' < parents.Length ==> parents[i'] == old(parents[i'])
    {
      var node := parents[i];
      for j := 0 to Octants
        invariant WellFormed(parents[i])
        invariant forall j' :: 0 <= j' < j ==>
          parents[i].children[j'] == RewriteLeafRef(node.children[j'], OrigLeaf(leaves[..], node.children[j']), unique[..])
        invariant forall j' :: j <= j' < Octants ==> parents[i].children[j'] == node.children[j']
        invariant forall i' :: 0 <= i' < i ==>
          parents[i'] == RewriteLeafNode(old(parents[i']), leaves[..], unique[..])
        invariant forall i' :: i < i' < parents.Length ==> parents[i'] == old(parents[i'])
      {
        var p := parents[i].children[j];
        if p != Null {
          var childValue := leaves[p.slot];
          var found := None;
          if childValue != 0 {
            found := FindLast(unique, childValue);
          }
          if found.Some? {
            parents[i] := Node(parents[i].children[j := Unique(found.value)]);
          }
        }
      }
      assert parents[i] == RewriteLeafNode(node, leaves[..], unique[..]);
    }
  }

  /** The pass over a branch level (DAG.cpp:232-263), in place on the parent level. */
  method RewriteParents(parents: array<Node>, level: array<Node>, unique: array<Node>)
    requires parents != level && parents != unique
    requires forall i :: 0 <= i < parents.Length ==>
      WellFormed(parents[i]) && OrigRefs(parents[i], level.Length)
    modifies parents
    ensures forall i :: 0 <= i < parents.Length ==>
      parents[i] == RewriteNode(old(parents[i]), level[..], unique[..])
  {
    for i := 0 to parents.Length
      invariant forall i' :: 0 <= i' < i ==>
        parents[i'] == RewriteNode(old(parents[i']), level[..], unique[..])
      invariant forall i' :: i <= i' < parents.Length ==> parents[i'] == old(parents[i'])
    {
      var node := parents[i];
      for j := 0 to Octants
        invariant WellFormed(parents[i])
        invariant forall j' :: 0 <= j' < j ==>
          parents[i].children[j'] == RewriteNodeRef(node.children[j'], OrigNode(level[..], node.children[j']), unique[..])
        invariant forall j' :: j <= j' < Octants ==> parents[i].children[j'] == node.children[j']
        invariant forall i' :: 0 <= i' < i ==>
          parents[i'] == RewriteNode(old(parents[i']), level[..], unique[..])
        invariant forall i' :: i < i' < parents.Length ==> parents[i'] == old(parents[i'])
      {
        var p := parents[i].children[j];
        if p != Null {
          var childValue := level[p.slot];
          var found := FindLast(unique, childValue);
          if found.Some? {
            parents[i] := Node(parents[i].children[j := Unique(found.value)]);
          }
        }
      }
      assert parents[i] == RewriteNode(node, level[..], unique[..]);
    }
  }
}
