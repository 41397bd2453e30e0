/**
 * The packed encoding of a level of canonical nodes (DAG.cpp:290-393).  Every node becomes a
 * run of words: its presence mask, then one reference per present child in ascending octant
 * order.  How a child becomes a reference is a `Link`: kept as it is, or looked up in the
 * address map of the level below.
 */
module Encoding {
  import opened Octree
  import opened Bits

  /** How a child pointer becomes a reference: kept as it is (the leaf-parent level), or
      looked up in the address map of the level below (the levels above it). */
  datatype Link = Direct | Through(addr: map<Ptr, Ptr>)

  /** The reference written for a present child; a missing key has no reference. */
  function Target(link: Link, p: Ptr): Ptr {
    match link
    case Direct => p
    case Through(addr) => if p in addr then addr[p] else Null
  }

  /** Whether every present child of `n` has a reference (`prevLevelsMap->at` finds it). */
  predicate NodeResolvable(n: Node, link: Link) {
    ResolvableUpTo(n.children, |n.children|, link)
  }

  /** Whether every present child among the first `n` octants has a reference. */
  predicate ResolvableUpTo(cs: seq<Ptr>, n: nat, link: Link)
    requires n <= |cs|
  {
    link.Direct? || forall j :: 0 <= j < n && cs[j] != Null ==> cs[j] in link.addr
  }

  predicate Resolvable(nodes: seq<Node>, link: Link) {
    forall i :: 0 <= i < |nodes| ==> NodeResolvable(nodes[i], link)
  }

  function Refs(ps: seq<Ptr>, link: Link): (r: seq<Word>)
    ensures |r| == |ps| && forall i :: 0 <= i < |ps| ==> r[i] == Pointer(Target(link, ps[i]))
  {
    seq(|ps|, i requires 0 <= i < |ps| => Pointer(Target(link, ps[i])))
  }

  /** Words of one packed node: the mask word and the present children's references. */
  function NodeSize(n: Node): nat {
    1 + |Present(n.children)|
  }

  /** Words of a packed level: one mask per node plus one word per non-null pointer
      (`sizeAtLevel`, DAG.cpp:294-312). */
  function LevelSize(nodes: seq<Node>): nat {
    |nodes| + PointerCount(nodes)
  }

  /** Where node `i` of the level starts: the words of the nodes before it. */
  function Offset(nodes: seq<Node>, i: nat): nat
    requires i <= |nodes|
  {
    LevelSize(nodes[..i])
  }

  function EncodeNode(n: Node, link: Link): seq<Word> {
    [Mask(ChildMask(n.children))] + Refs(Present(n.children), link)
  }

  /** A leaf-parent node as DAG.cpp:326-345 writes it: its leaf references in octant order
      behind the mask that `mask |= 1; mask <<= 1` builds. */
  function EncodeLeafParentAsWritten(n: Node): (r: seq<Word>)
    requires |n.children| <= Octants
    ensures |r| == NodeSize(n) && r[0].Mask? && !IsChildSet(r[0].bits, 0)
    ensures forall k :: 1 <= k < |r| ==> r[k] == Pointer(Present(n.children)[k - 1])
  {
    [Mask(ChildMaskAsWritten(n.children))] + Refs(Present(n.children), Direct)
  }

  /** As written, the leaf-parent run carries the right references but a mask that puts
      child `j` on bit `8 - j` and never sets bit 0, while `isChildSet` reads child `j` from
      bit `j`. */
  lemma LeafParentAsWrittenBits(n: Node)
    requires WellFormed(n)
    ensures EncodeLeafParentAsWritten(n)[1..] == EncodeNode(n, Direct)[1..]
    ensures forall j :: 0 <= j < Octants ==>
      (IsChildSet(EncodeLeafParentAsWritten(n)[0].bits, Octants - j) <==> n.children[j] != Null)
    ensures !IsChildSet(EncodeLeafParentAsWritten(n)[0].bits, 0)
  {
    ChildMaskAsWrittenBits(n.children);
  }

  /** A leaf-parent node whose only child is octant 0: the mask written for it has bit 0
      clear, so a query through octant 0 stops there, although the node has that child; the
      corrected encoder sets bit 0. */
  lemma LeafParentAsWrittenCounterexample(n: Node)
    requires n == Node([Unique(0), Null, Null, Null, Null, Null, Null, Null])
    ensures n.children[0] != Null
    ensures !IsChildSet(EncodeLeafParentAsWritten(n)[0].bits, 0)
    ensures IsChildSet(EncodeNode(n, Direct)[0].bits, 0)
  {
    LeafParentAsWrittenBits(n);
    ChildMaskBits(n.children, 0);
  }

  /** The packed level: the nodes' runs, one after the other. */
  function EncodeLevel(nodes: seq<Node>, link: Link): seq<Word> {
    if |nodes| == 0 then []
    else EncodeLevel(nodes[..|nodes| - 1], link) + EncodeNode(nodes[|nodes| - 1], link)
  }

  /** The address map of a packed level (`leafParentMapping` / `currLevelsMap`): the
      canonical node at slot `i` is found at the word where its run starts. */
  function OffsetMap(nodes: seq<Node>): map<Ptr, Ptr> {
    map i | 0 <= i < |nodes| :: Unique(i) := Packed(Offset(nodes, i))
  }

  /** The entries of the address map for the first `n` nodes, as the pass has built it so far. */
  function OffsetMapUpTo(nodes: seq<Node>, n: nat): map<Ptr, Ptr>
    requires n <= |nodes|
  {
    map i | 0 <= i < n :: Unique(i) := Packed(Offset(nodes, i))
  }

  /** One node's size, as the source's cursor advances: 1 + popcount of the node. */
  lemma LevelSizeStep(nodes: seq<Node>, i: nat)
    requires i < |nodes|
    ensures LevelSize(nodes[..i + 1]) == LevelSize(nodes[..i]) + NodeSize(nodes[i])
  {
    assert nodes[..i + 1][..i] == nodes[..i];
  }

  /** A prefix of a level packs into no more words than the level. */
  lemma {:induction false} LevelSizePrefix(nodes: seq<Node>, i: nat)
    requires i <= |nodes|
    ensures LevelSize(nodes[..i]) <= LevelSize(nodes)
    decreases |nodes| - i
  {
    if i < |nodes| {
      LevelSizePrefix(nodes, i + 1);
      LevelSizeStep(nodes, i);
    } else {
      assert nodes[..i] == nodes;
    }
  }

  /** The cursor after node `i` is where node `i + 1` starts, still inside the level. */
  lemma OffsetStep(nodes: seq<Node>, i: nat, next: nat)
    requires i < |nodes| && next == i + 1
    ensures Offset(nodes, next) == Offset(nodes, i) + NodeSize(nodes[i]) <= LevelSize(nodes)
  {
    LevelSizeStep(nodes, i);
    LevelSizePrefix(nodes, next);
  }

  /** The packed level is exactly as long as `sizeAtLevel` says. */
  lemma {:induction false} EncodeLevelSize(nodes: seq<Node>, link: Link)
    ensures |EncodeLevel(nodes, link)| == LevelSize(nodes)
  {
    if |nodes| > 0 {
      var n := |nodes| - 1;
      EncodeLevelSize(nodes[..n], link);
      LevelSizeStep(nodes, n);
      assert nodes[..n + 1] == nodes;
    }
  }

  /** Packing a prefix of the level writes a prefix of the packed level. */
  lemma {:induction false} EncodeLevelPrefix(nodes: seq<Node>, i: nat, link: Link)
    requires i <= |nodes|
    ensures EncodeLevel(nodes[..i], link) <= EncodeLevel(nodes, link)
    decreases |nodes| - i
  {
    if i < |nodes| {
      EncodeLevelPrefix(nodes, i + 1, link);
      assert nodes[..i + 1][..i] == nodes[..i];
    } else {
      assert nodes[..i] == nodes;
    }
  }

  /** Node `i`'s run sits at its offset: the mask word first, then the reference of every
      present child in ascending octant order. */
  lemma EncodedNodeAt(nodes: seq<Node>, i: nat, link: Link)
    requires i < |nodes|
    ensures Offset(nodes, i) + NodeSize(nodes[i]) <= |EncodeLevel(nodes, link)|
    ensures EncodeLevel(nodes, link)[Offset(nodes, i) .. Offset(nodes, i) + NodeSize(nodes[i])]
      == EncodeNode(nodes[i], link)
  {
    var next := i + 1;
    EncodeLevelLast(nodes, i, next, link);
    EncodeLevelSize(nodes[..i], link);
    EncodeLevelPrefix(nodes, next, link);
    SliceOfPrefix(EncodeLevel(nodes, link), EncodeLevel(nodes[..i], link), EncodeNode(nodes[i], link),
                  Offset(nodes, i), NodeSize(nodes[i]));
  }

  /** The packed prefix up to node `i` ends with node `i`'s run. */
  lemma EncodeLevelLast(nodes: seq<Node>, i: nat, next: nat, link: Link)
    requires i < |nodes| && next == i + 1
    ensures EncodeLevel(nodes[..next], link) == EncodeLevel(nodes[..i], link) + EncodeNode(nodes[i], link)
  {
    assert nodes[..next][..i] == nodes[..i];
  }

  lemma SliceOfPrefix<T>(whole: seq<T>, a: seq<T>, b: seq<T>, o: nat, size: nat)
    requires a + b <= whole && o == |a| && size == |b|
    ensures o + size <= |whole| && whole[o..o + size] == b
  {
    assert whole[..o + size] == a + b;
  }

  /** Word `1 + r` of a run that sits at offset `o` is word `o + 1 + r` of the level. */
  lemma WordOfRun(enc: seq<Word>, o: nat, run: seq<Word>, r: nat)
    requires o + |run| <= |enc| && enc[o..o + |run|] == run && 1 + r < |run|
    ensures o + 1 + r < |enc| && enc[o + 1 + r] == run[1 + r]
  {
  }

  /** The reference for octant `d` of node `i` sits 1 + (set mask bits below `d`) words after
      the node's offset `o`, and holds the child's target. */
  lemma EncodedChildRef(nodes: seq<Node>, i: nat, d: nat, link: Link, o: nat, r: nat)
    requires i < |nodes| && WellFormed(nodes[i]) && d < Octants && nodes[i].children[d] != Null
    requires o == Offset(nodes, i) && r == PopcountBelow(ChildMask(nodes[i].children), d)
    ensures o + 1 + r < |EncodeLevel(nodes, link)|
    ensures EncodeLevel(nodes, link)[o + 1 + r] == Pointer(Target(link, nodes[i].children[d]))
  {
    PopcountBelowChildMask(nodes[i].children, d);
    PresentRank(nodes[i].children, d);
    EncodedNodeAt(nodes, i, link);
    WordOfRun(EncodeLevel(nodes, link), o, EncodeNode(nodes[i], link), r);
  }

  /** The number of non-null child pointers of a level (DAG.cpp:294-304). */
  method CountPointers(nodes: array<Node>) returns (pointerCount: nat)
    ensures pointerCount == PointerCount(nodes[..])
  {
    pointerCount := 0;
    for i := 0 to nodes.Length
      invariant pointerCount == PointerCount(nodes[..i])
    {
      var cs := nodes[i].children;
      var present := 0;
      for j := 0 to |cs|
        invariant present == |PresentUpTo(cs, j)|
      {
        if cs[j] != Null {
          present := present + 1;
        }
      }
      assert nodes[..i + 1][..i] == nodes[..i];
      pointerCount := pointerCount + present;
    }
    assert nodes[..nodes.Length] == nodes[..];
  }

  /** Octant `j` contributes its child after the present children of the octants before it. */
  lemma PresentStep(cs: seq<Ptr>, j: nat, next: nat)
    requires j < |cs| && next == j + 1
    ensures |PresentUpTo(cs, next)| <= |Present(cs)|
    ensures PresentUpTo(cs, next) == PresentUpTo(cs, j) + (if cs[j] != Null then [cs[j]] else [])
  {
    PresentPrefixAppend(cs, next, |cs|);
  }

  lemma RefsAppend(ps: seq<Ptr>, p: Ptr, link: Link)
    ensures Refs(ps + [p], link) == Refs(ps, link) + [Pointer(Target(link, p))]
  {
  }

  /** The address map grows by one entry per node. */
  lemma OffsetMapStep(nodes: seq<Node>, i: nat, next: nat)
    requires i < |nodes| && next == i + 1
    ensures OffsetMapUpTo(nodes, next) == OffsetMapUpTo(nodes, i)[Unique(i) := Packed(Offset(nodes, i))]
  {
  }

  /** Writes node `n`'s run at word `at` of `buf` (an iteration of DAG.cpp:324-344 or
      DAG.cpp:360-389): the cursor skips the mask word, writes one reference per present
      child, and the mask is stored last.  A child missing from the address map stops the
      pass, as `at` throws in the source. */
  method EncodeNodeAt(n: Node, buf: array<Word>, at: nat, link: Link) returns (ok: bool)
    requires WellFormed(n) && at + NodeSize(n) <= buf.Length
    modifies buf
    ensures ok <==> NodeResolvable(n, link)
    ensures ok ==> buf[..at + NodeSize(n)] == old(buf[..at]) + EncodeNode(n, link)
  {
    var mask, cursor;
    ok, mask, cursor := EncodeOctants(n.children, buf, at, link);
    if ok {
      WriteMask(n, buf, at, cursor, mask, link);
    }
  }

  /** The octant loop of a node (DAG.cpp:332-342 or DAG.cpp:366-386): the references of the
      present children follow word `at`, and the mask collects their bits. */
  method EncodeOctants(cs: seq<Ptr>, buf: array<Word>, at: nat, link: Link) returns (ok: bool, mask: nat, cursor: nat)
    requires |cs| == Octants && at + 1 + |Present(cs)| <= buf.Length
    modifies buf
    ensures buf[..at] == old(buf[..at])
    ensures ok <==> ResolvableUpTo(cs, |cs|, link)
    ensures ok ==> mask == ChildMask(cs) && cursor == at + 1 + |Present(cs)|
    ensures ok ==> buf[at + 1..cursor] == Refs(Present(cs), link)
  {
    cursor := at + 1;
    mask := 0;
    var j := 0;
    while j < Octants
      invariant j <= Octants
      invariant mask == ChildMaskUpTo(cs, j)
      invariant cursor == at + 1 + |PresentUpTo(cs, j)| <= at + 1 + |Present(cs)|
      invariant buf[..at] == old(buf[..at])
      invariant buf[at + 1..cursor] == Refs(PresentUpTo(cs, j), link)
      invariant ResolvableUpTo(cs, j, link)
    {
      var next := j + 1;
      ok, mask, cursor := EncodeOctant(cs, j, next, buf, at, cursor, mask, link);
      if !ok {
        return;
      }
      j := next;
    }
    ok := true;
  }

  /** The mask word stored in front of the references, through the pointer kept at the
      node's start (DAG.cpp:344, 390). */
  method WriteMask(n: Node, buf: array<Word>, at: nat, cursor: nat, mask: nat, link: Link)
    requires WellFormed(n) && mask == ChildMask(n.children) && cursor == at + NodeSize(n) <= buf.Length
    requires buf[at + 1..cursor] == Refs(Present(n.children), link)
    modifies buf
    ensures buf[..at + NodeSize(n)] == old(buf[..at]) + EncodeNode(n, link)
  {
    ghost var before := buf[..at];
    ghost var refs := buf[at + 1..cursor];
    buf[at] := Mask(mask);
    assert buf[..cursor] == before + [Mask(mask)] + refs;
  }

  /** One octant of the node loop (DAG.cpp:332-342 or DAG.cpp:366-386): a present child gets
      its reference at the cursor and its bit in the mask; an absent one changes nothing. */
  method EncodeOctant(cs: seq<Ptr>, j: nat, ghost next: nat, buf: array<Word>, at: nat, cursor: nat,
                      mask: nat, link: Link)
    returns (ok: bool, mask': nat, cursor': nat)
    requires j < |cs| == Octants && next == j + 1 && at + 1 + |Present(cs)| <= buf.Length
    requires mask == ChildMaskUpTo(cs, j) && cursor == at + 1 + |PresentUpTo(cs, j)| <= at + 1 + |Present(cs)|
    requires buf[at + 1..cursor] == Refs(PresentUpTo(cs, j), link) && ResolvableUpTo(cs, j, link)
    modifies buf
    ensures buf[..at] == old(buf[..at])
    ensures ok <==> link.Direct? || cs[j] == Null || cs[j] in link.addr
    ensures ok ==> mask' == ChildMaskUpTo(cs, next)
    ensures ok ==> cursor' == at + 1 + |PresentUpTo(cs, next)| <= at + 1 + |Present(cs)|
    ensures ok ==> buf[at + 1..cursor'] == Refs(PresentUpTo(cs, next), link)
    ensures ok ==> ResolvableUpTo(cs, next, link)
  {
    PresentStep(cs, j, next);
    mask', cursor' := mask, cursor;
    ok := true;
    if cs[j] != Null {
      ok := WriteRef(cs, j, buf, at, cursor, link);
      if ok {
        mask' := Or(mask, Pow2(j));
        cursor' := cursor + 1;
      }
    }
  }

  /** The reference of present child `j` at the cursor (the inner `if` of DAG.cpp:334-341 and
      DAG.cpp:371-381): the child itself, or its entry in the address map, whose absence
      makes `at` throw. */
  method WriteRef(cs: seq<Ptr>, j: nat, buf: array<Word>, at: nat, cursor: nat, link: Link) returns (ok: bool)
    requires j < |cs| && cs[j] != Null && cursor == at + 1 + |PresentUpTo(cs, j)| && cursor < buf.Length
    requires buf[at + 1..cursor] == Refs(PresentUpTo(cs, j), link)
    modifies buf
    ensures buf[..at] == old(buf[..at])
    ensures ok <==> link.Direct? || cs[j] in link.addr
    ensures ok ==> buf[at + 1..cursor + 1] == Refs(PresentUpTo(cs, j + 1), link)
  {
    var t: Ptr;
    match link {
      case Direct => t := cs[j];
      case Through(addr) =>
        if cs[j] !in addr {
          return false;
        }
        t := addr[cs[j]];
    }
    ghost var written := buf[at + 1..cursor];
    buf[cursor] := Pointer(t);
    assert buf[at + 1..cursor + 1] == written + [Pointer(t)];
    RefsAppend(PresentUpTo(cs, j), cs[j], link);
    ok := true;
  }

  /** Packs a canonical level into `buf`, whose size is the level's `sizeAtLevel`, and
      returns the level's address map (DAG.cpp:321-345 for the leaf-parent level with
      `Direct`, DAG.cpp:355-390 for the levels above with the map of the level below). */
  method EncodeLevelInto(nodes: array<Node>, buf: array<Word>, link: Link) returns (ok: bool, addr: map<Ptr, Ptr>)
    requires forall i :: 0 <= i < nodes.Length ==> WellFormed(nodes[i])
    requires buf.Length == LevelSize(nodes[..])
    modifies buf
    ensures ok <==> Resolvable(nodes[..], link)
    ensures ok ==> buf[..] == EncodeLevel(nodes[..], link) && addr == OffsetMap(nodes[..])
  {
    ghost var ns := nodes[..];
    addr := map[];
    var cursor := 0;
    var i := 0;
    while i < nodes.Length
      invariant i <= nodes.Length
      invariant cursor == Offset(ns, i) <= buf.Length
      invariant buf[..cursor] == EncodeLevel(ns[..i], link)
      invariant addr == OffsetMapUpTo(ns, i)
      invariant forall t :: 0 <= t < i ==> NodeResolvable(ns[t], link)
    {
      var next := i + 1;
      ok, cursor, addr := EncodeRun(nodes[i], buf, link, ns, i, next, cursor, addr);
      if !ok {
        return;
      }
      i := next;
    }
    WholeLevel(ns);
    ok := true;
  }

  /** The loop of `EncodeLevelInto` ends with the whole level: its prefix is the level and
      its partial address map the full one. */
  lemma WholeLevel(nodes: seq<Node>)
    ensures nodes[..|nodes|] == nodes && Offset(nodes, |nodes|) == LevelSize(nodes)
    ensures OffsetMapUpTo(nodes, |nodes|) == OffsetMap(nodes)
  {
    assert nodes[..|nodes|] == nodes;
  }

  /** One node of the level loop (DAG.cpp:324-344 or DAG.cpp:360-389): node `i` is entered in
      the address map at the cursor, its run is written there, and the cursor moves past it. */
  method EncodeRun(n: Node, buf: array<Word>, link: Link, ghost ns: seq<Node>, i: nat, ghost next: nat,
                   cursor: nat, addr: map<Ptr, Ptr>)
    returns (ok: bool, cursor': nat, addr': map<Ptr, Ptr>)
    requires i < |ns| && next == i + 1 && n == ns[i] && WellFormed(n)
    requires buf.Length == LevelSize(ns)
    requires cursor == Offset(ns, i) <= buf.Length && buf[..cursor] == EncodeLevel(ns[..i], link)
    requires addr == OffsetMapUpTo(ns, i) && forall t :: 0 <= t < i ==> NodeResolvable(ns[t], link)
    modifies buf
    ensures ok <==> NodeResolvable(n, link)
    ensures ok ==> cursor' == Offset(ns, next) <= buf.Length
    ensures ok ==> buf[..cursor'] == EncodeLevel(ns[..next], link)
    ensures ok ==> addr' == OffsetMapUpTo(ns, next)
    ensures ok ==> forall t :: 0 <= t < next ==> NodeResolvable(ns[t], link)
  {
    OffsetStep(ns, i, next);
    OffsetMapStep(ns, i, next);
    addr' := addr[Unique(i) := Packed(cursor)];
    ok := EncodeNodeAt(n, buf, cursor, link);
    cursor' := cursor + NodeSize(n);
    if ok {
      EncodeLevelLast(ns, i, next, link);
    }
  }
}
