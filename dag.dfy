/**
 * The `DAG` object of DAG.cpp: the guarded constructor, which compacts the octree and packs
 * the canonical levels (DAG.cpp:9-28, 39-393), and the voxel query over the packed levels
 * (DAG.cpp:428-468, 545-564).
 */
module Dag {
  import opened Wrappers
  import opened Octree
  import opened Bits
  import opened Semantics
  import opened Compaction
  import opened Encoding
  import opened Packing
  import opened Digits

  /** Why construction fails: `std::out_of_range("Number of levels too small")`. */
  datatype BuildError = LevelsTooSmall

  /** What a leaf-parent reference may designate: a canonical leaf word, or (the zero-word
      quirk of the leaf rewrite) a word of the octree's own leaf buffer. */
  predicate LeafPtr(h: Heap, p: Ptr) {
    || (p.Unique? && p.slot < |h.uniqueLeaves|)
    || (p.Orig? && p.slot < |h.svoLeaves|)
  }

  /** The mask word of canonical node `slot` of level `m` sits at the node's offset, and bit
      `d` of it is set exactly when child `d` is present; when it is not, no voxel of that
      octant is set. */
  lemma QueryMask(h: Heap, levels: nat, m: nat, slot: nat, d: nat, morton: nat)
    requires CanonicalDag(h, levels) && m <= levels - 3 && slot < |h.uniq[m]|
    requires d == Digit(morton, levels, m)
    ensures Offset(h.uniq[m], slot) < |PackLevel(h, levels, m)|
    ensures PackLevel(h, levels, m)[Offset(h.uniq[m], slot)] == Mask(ChildMask(h.uniq[m][slot].children))
    ensures IsChildSet(ChildMask(h.uniq[m][slot].children), d) <==> h.uniq[m][slot].children[d] != Null
    ensures h.uniq[m][slot].children[d] == Null ==> !Occupied(h, levels, m, h.uniq[m][slot], morton)
  {
    var nodes := h.uniq[m];
    assert LevelClosed(h, levels, m, nodes);
    ChildMaskBits(nodes[slot].children, d);
    EncodedNodeAt(nodes, slot, if m < levels - 3 then Through(OffsetMap(h.uniq[m + 1])) else Direct);
  }

  /** Above the leaf-parent level a present child is a slot of the canonical level below. */
  lemma BranchChildSlot(h: Heap, levels: nat, m: nat, slot: nat, d: nat)
    requires CanonicalDag(h, levels) && m < levels - 3 && slot < |h.uniq[m]| && d < Octants
    requires h.uniq[m][slot].children[d] != Null
    ensures h.uniq[m][slot].children[d].Unique? && h.uniq[m][slot].children[d].slot < |h.uniq[m + 1]|
  {
    assert LevelClosed(h, levels, m, h.uniq[m]);
    assert UniqueRefs(h.uniq[m][slot], |UniqLevel(h, m + 1)|);
  }

  /** Above the leaf-parent level, the reference at 1 + (set bits below octant `d`) is the
      packed offset of the canonical child: node `slot`'s run starts at `o`, and the child of
      octant `d` is its present child of rank `r`. */
  lemma BranchChildRef(h: Heap, levels: nat, m: nat, slot: nat, d: nat, o: nat, r: nat)
    requires CanonicalDag(h, levels) && m < levels - 3 && slot < |h.uniq[m]| && d < Octants
    requires h.uniq[m][slot].children[d] != Null
    requires o == Offset(h.uniq[m], slot) && r == PopcountBelow(ChildMask(h.uniq[m][slot].children), d)
    ensures h.uniq[m][slot].children[d].Unique? && h.uniq[m][slot].children[d].slot < |h.uniq[m + 1]|
    ensures o + 1 + r < |PackLevel(h, levels, m)|
    ensures PackLevel(h, levels, m)[o + 1 + r] == Pointer(Packed(Offset(h.uniq[m + 1], h.uniq[m][slot].children[d].slot)))
  {
    ClosedWellFormed(h, levels, m, slot);
    BranchChildSlot(h, levels, m, slot, d);
    EncodedChildRef(h.uniq[m], slot, d, Through(OffsetMap(h.uniq[m + 1])), o, r);
  }

  /** Above the leaf-parent level, the voxel is set below the node exactly when it is set below
      the child its octant designates. */
  lemma BranchChildOccupied(h: Heap, levels: nat, m: nat, slot: nat, d: nat, morton: nat)
    requires CanonicalDag(h, levels) && m < levels - 3 && slot < |h.uniq[m]|
    requires d == Digit(morton, levels, m) && h.uniq[m][slot].children[d] != Null
    ensures h.uniq[m][slot].children[d].Unique? && h.uniq[m][slot].children[d].slot < |h.uniq[m + 1]|
    ensures Occupied(h, levels, m, h.uniq[m][slot], morton)
      == Occupied(h, levels, m + 1, h.uniq[m + 1][h.uniq[m][slot].children[d].slot], morton)
  {
    assert LevelClosed(h, levels, m, h.uniq[m]);
    BranchChildSlot(h, levels, m, slot, d);
    assert Child(h.uniq[m][slot], d) == h.uniq[m][slot].children[d];
  }

  /** At the leaf-parent level a present child designates a leaf word. */
  lemma LeafChildPtr(h: Heap, levels: nat, slot: nat, d: nat)
    requires CanonicalDag(h, levels) && slot < |h.uniq[levels - 3]| && d < Octants
    requires h.uniq[levels - 3][slot].children[d] != Null
    ensures LeafPtr(h, h.uniq[levels - 3][slot].children[d])
  {
    assert LevelClosed(h, levels, levels - 3, h.uniq[levels - 3]);
    assert LeafRefs(h.uniq[levels - 3][slot], |h.uniqueLeaves|, h.svoLeaves);
  }

  /** At the leaf-parent level the reference is the leaf pointer itself: node `slot`'s run
      starts at `o`, and the child of octant `d` is its present child of rank `r`. */
  lemma LeafChildRef(h: Heap, levels: nat, slot: nat, d: nat, o: nat, r: nat)
    requires CanonicalDag(h, levels) && slot < |h.uniq[levels - 3]| && d < Octants
    requires h.uniq[levels - 3][slot].children[d] != Null
    requires o == Offset(h.uniq[levels - 3], slot) && r == PopcountBelow(ChildMask(h.uniq[levels - 3][slot].children), d)
    ensures o + 1 + r < |PackLevel(h, levels, levels - 3)|
    ensures PackLevel(h, levels, levels - 3)[o + 1 + r] == Pointer(h.uniq[levels - 3][slot].children[d])
  {
    ClosedWellFormed(h, levels, levels - 3, slot);
    EncodedChildRef(h.uniq[levels - 3], slot, d, Direct, o, r);
  }

  lemma ClosedWellFormed(h: Heap, levels: nat, k: nat, slot: nat)
    requires CanonicalDag(h, levels) && k < levels - 2 && slot < |h.uniq[k]|
    ensures WellFormed(h.uniq[k][slot])
  {
    assert LevelClosed(h, levels, k, h.uniq[k]);
  }

  /** At the leaf-parent level the voxel is bit `morton % 64` of the designated leaf word. */
  lemma LeafChildOccupied(h: Heap, levels: nat, slot: nat, d: nat, morton: nat)
    requires CanonicalDag(h, levels) && slot < |h.uniq[levels - 3]|
    requires d == Digit(morton, levels, levels - 3) && h.uniq[levels - 3][slot].children[d] != Null
    ensures Occupied(h, levels, levels - 3, h.uniq[levels - 3][slot], morton)
      == IsLeafSet(LeafAt(h, h.uniq[levels - 3][slot].children[d]), morton % 64)
  {
    assert LevelClosed(h, levels, levels - 3, h.uniq[levels - 3]);
    assert Child(h.uniq[levels - 3][slot], d) == h.uniq[levels - 3][slot].children[d];
  }

  /** The buffers of a packed DAG: `levels` and `sizeAtLevel` pack the compaction `compacted`
      of the octree `original`, `leaves` holds its canonical leaf words and `octreeLeaves` the
      octree's own. */
  ghost predicate Packs(levels: seq<array<Word>>, leaves: array<Word64>, octreeLeaves: array<Word64>,
                        sizeAtLevel: array<nat>, original: Heap, compacted: Heap, numLevels: nat)
    reads sizeAtLevel, leaves, octreeLeaves, set k | 0 <= k < |levels| :: levels[k]
  {
    && 3 <= numLevels && OctreeShape(original, numLevels)
    && Compacted(compacted, original, numLevels)
    && |levels| == numLevels - 2 && sizeAtLevel.Length == numLevels - 1
    && (forall k :: 0 <= k < numLevels - 2 ==>
          levels[k][..] == PackLevel(compacted, numLevels, k)
          && sizeAtLevel[k] == LevelSize(compacted.uniq[k]))
    && sizeAtLevel[numLevels - 2] == |compacted.uniqueLeaves|
    && leaves[..] == compacted.uniqueLeaves && octreeLeaves[..] == compacted.svoLeaves
  }

  /** A packed node whose only child is octant 0 is followed by one reference, and its mask
      has one set octant bit, which `GetNumChildren` counts; the as-written count is eight. */
  lemma NumChildrenCounterexample(cs: seq<Ptr>)
    requires cs == [Unique(0), Null, Null, Null, Null, Null, Null, Null]
    ensures |Present(cs)| == 1
    ensures PopcountBelow(ChildMask(cs), Octants) == 1 != Octants
  {
    OnlyFirstPresent(cs, Octants);
    PopcountChildMask(cs);
  }

  lemma {:induction false} OnlyFirstPresent(cs: seq<Ptr>, n: nat)
    requires cs == [Unique(0), Null, Null, Null, Null, Null, Null, Null] && 1 <= n <= Octants
    ensures PresentUpTo(cs, n) == [Unique(0)]
  {
    if n > 1 {
      OnlyFirstPresent(cs, n - 1);
    }
  }

  /** The packed DAG. */
  class DAG {
    const numLevels: nat
    /** `size`: 8^L voxels. */
    const size: nat
    /** `dimension`: 2^L voxels along an edge. */
    const dimension: nat
    /** `levels[0 .. L-3]`: the packed branch levels; `levels[0]` starts with the root. */
    var levels: seq<array<Word>>
    /** `levels[L-2]`: the canonical leaf words, the very buffer of `uniqueLeafs`. */
    var leaves: array<Word64>
    /** The octree's own leaf buffer, which the leaf-parent slots skipped by the zero-word
        quirk still point into.  The source keeps no field for it: it is reached through
        those raw pointers. */
    var octreeLeaves: array<Word64>
    var sizeAtLevel: array<nat>
    /** The octree the DAG was built from, and its compacted form. */
    ghost var original: Heap
    ghost var compacted: Heap

    ghost predicate Valid()
      reads this, sizeAtLevel, leaves, octreeLeaves, set k | 0 <= k < |levels| :: levels[k]
    {
      && 3 <= numLevels && size == Pow(8, numLevels) && dimension == Pow(2, numLevels)
      && Packs(levels, leaves, octreeLeaves, sizeAtLevel, original, compacted, numLevels)
    }

    /** `DAG::DAG` and `build` for an octree of `levelsVal` levels whose node buffers are
        `svo` (with contents `s0`) and whose leaf words are `svoLeaves`. */
    constructor (levelsVal: nat, svo: seq<array<Node>>, svoLeaves: array<Word64>,
                 ghost s0: seq<seq<Node>>, ghost leaves0: seq<Word64>)
      requires 3 <= levelsVal && |svo| == levelsVal - 2 && |s0| == levelsVal - 2
      requires forall i, j :: 0 <= i < j < |svo| ==> svo[i] != svo[j]
      requires forall k :: 0 <= k < |svo| ==> svo[k][..] == s0[k]
      requires svoLeaves[..] == leaves0 && OctreeShape(OriginalHeap(s0, leaves0), levelsVal)
      modifies set k | 0 <= k < |svo| :: svo[k]
      ensures Valid() && numLevels == levelsVal && original == OriginalHeap(s0, leaves0)
      ensures octreeLeaves == svoLeaves
    {
      numLevels := levelsVal;
      size := Pow(8, levelsVal);
      dimension := Pow(2, levelsVal);
      var packed, uniqueLeafs, sizes, hf := Build(levelsVal, svo, svoLeaves, s0, leaves0);
      levels := packed;
      leaves := uniqueLeafs;
      octreeLeaves := svoLeaves;
      sizeAtLevel := sizes;
      original := OriginalHeap(s0, leaves0);
      compacted := hf;
    }

    /** `getChildPointer` (DAG.cpp:454-468): the word after the mask word and after one
        reference per set bit below `index`. */
    static method GetChildPointer(level: array<Word>, node: nat, index: nat) returns (w: Word)
      requires node < level.Length && level[node].Mask?
      requires node + 1 + PopcountBelow(level[node].bits, index) < level.Length
      ensures w == level[node + 1 + PopcountBelow(level[node].bits, index)]
    {
      var pointer := node + 1;
      for i := 0 to index
        invariant pointer == node + 1 + PopcountBelow(level[node].bits, i)
      {
        if IsChildSet(level[node].bits, i) {
          pointer := pointer + 1;
        }
      }
      w := level[pointer];
    }

    /** `getNumChildren` (DAG.cpp:598-609) as written: it tests `toOr | mask` rather than
        `toOr & mask`, and the former is never zero, so every octant is counted. */
    static method GetNumChildrenAsWritten(level: array<Word>, node: nat) returns (count: nat)
      requires node < level.Length && level[node].Mask?
      ensures count == Octants
    {
      var mask := level[node].bits;
      count := 0;
      for i := 0 to Octants
        invariant count == i
      {
        var toOr := Pow2(i);
        OrNonZero(toOr, mask);
        if Or(toOr, mask) != 0 {
          count := count + 1;
        }
      }
    }

    /** `getNumChildren` as evidently intended: the set octant bits of the mask, one per
        reference that follows it in a packed node. */
    static method GetNumChildren(level: array<Word>, node: nat) returns (count: nat)
      requires node < level.Length && level[node].Mask?
      ensures count == PopcountBelow(level[node].bits, Octants)
    {
      var mask := level[node].bits;
      count := 0;
      for i := 0 to Octants
        invariant count == PopcountBelow(mask, i)
      {
        if IsChildSet(mask, i) {
          count := count + 1;
        }
      }
    }

    /** `isSet` (DAG.cpp:428-451) on the Morton index of the voxel: from the root, follow the
        octant of each base-8 digit, most significant first, through the L-2 branch levels,
        and test bit `morton % 64` of the leaf word reached.  The answer is the octree's. */
    method IsSet(morton: nat) returns (r: bool)
      requires Valid() && morton < size
      ensures r == Occupied(original, numLevels, 0, original.svo[0][0], morton)
    {
      r := Query(levels, leaves, octreeLeaves, compacted, numLevels, morton);
    }
  }

  /** The body of `isSet` over the packed levels `levels`, the canonical leaf words `leaves`
      and the octree's leaf words `octreeLeaves`, which pack the canonical heap `h`. */
  method Query(levels: seq<array<Word>>, leaves: array<Word64>, octreeLeaves: array<Word64>,
               ghost h: Heap, numLevels: nat, morton: nat) returns (r: bool)
    requires CanonicalDag(h, numLevels) && |levels| == numLevels - 2 && morton < Pow(8, numLevels)
    requires forall k :: 0 <= k < numLevels - 2 ==> levels[k][..] == PackLevel(h, numLevels, k)
    requires leaves[..] == h.uniqueLeaves && octreeLeaves[..] == h.svoLeaves
    ensures r == Occupied(h, numLevels, 0, h.uniq[0][0], morton)
  {
    ghost var answer := Occupied(h, numLevels, 0, h.uniq[0][0], morton);
    var node: Ptr := Packed(0);
    ghost var slot: nat := 0;
    var m := 0;
    var divBy := Pow(8, numLevels - 1);
    var modBy := divBy;
    FirstDigit(morton, numLevels);
    var index := morton / divBy;
    ghost var e: nat := numLevels - 1;
    assert h.uniq[0][..0] == [];
    while divBy >= 64
      invariant 0 <= m <= numLevels - 2 && e == numLevels - 1 - m && divBy == Pow(8, e)
      invariant m > 0 ==> modBy == divBy * 8
      invariant m <= numLevels - 3 ==>
        && index == Digit(morton, numLevels, m)
        && slot < |h.uniq[m]| && node == Packed(Offset(h.uniq[m], slot))
        && answer == Occupied(h, numLevels, m, h.uniq[m][slot], morton)
      invariant m == numLevels - 2 ==> LeafPtr(h, node) && answer == IsLeafSet(LeafAt(h, node), morton % 64)
      decreases divBy
    {
      Pow8AtLeast64(e);
      var below := m + 1;
      var present, next, nextSlot := FollowOctant(levels[m], h, numLevels, m, below, slot, node, index, morton);
      if !present {
        return false;
      }
      node := next;
      slot := nextSlot;
      ghost var e1: nat := e - 1;
      NextDigit(morton, numLevels, m, below, e, e1, divBy);
      modBy := divBy;
      divBy := divBy / 8;
      index := (morton % modBy) / divBy;
      m := below;
      e := e1;
    }
    LastScale(numLevels, m, e, divBy, modBy);
    index := morton % modBy;
    var leaf := if node.Unique? then leaves[node.slot] else octreeLeaves[node.slot];
    r := IsLeafSet(leaf, index);
  }

  /** One step of `isSet`'s descent (DAG.cpp:438-447) from the packed node at offset
      `node.offset` of level `m`: read its mask word; when bit `index` is clear the voxel is
      not set, otherwise the reference of that octant designates the canonical child whose
      subtree (or, at the leaf-parent level, whose leaf word) decides the voxel. */
  method FollowOctant(level: array<Word>, ghost h: Heap, ghost levels: nat, ghost m: nat, ghost below: nat,
                      ghost slot: nat, node: Ptr, index: nat, ghost morton: nat)
    returns (present: bool, next: Ptr, ghost nextSlot: nat)
    requires CanonicalDag(h, levels) && m <= levels - 3 && below == m + 1 && level[..] == PackLevel(h, levels, m)
    requires slot < |h.uniq[m]| && node == Packed(Offset(h.uniq[m], slot))
    requires index == Digit(morton, levels, m)
    ensures !present ==> !Occupied(h, levels, m, h.uniq[m][slot], morton)
    ensures present && below <= levels - 3 ==>
      && nextSlot < |h.uniq[below]| && next == Packed(Offset(h.uniq[below], nextSlot))
      && Occupied(h, levels, m, h.uniq[m][slot], morton) == Occupied(h, levels, below, h.uniq[below][nextSlot], morton)
    ensures present && below == levels - 2 ==>
      && LeafPtr(h, next) && Occupied(h, levels, m, h.uniq[m][slot], morton) == IsLeafSet(LeafAt(h, next), morton % 64)
  {
    QueryMask(h, levels, m, slot, index, morton);
    var mask := level[node.offset];
    present := IsChildSet(mask.bits, index);
    next, nextSlot := Null, 0;
    if !present {
      return;
    }
    if m < levels - 3 {
      BranchChildRef(h, levels, m, slot, index, node.offset, PopcountBelow(mask.bits, index));
      BranchChildOccupied(h, levels, m, slot, index, morton);
      nextSlot := h.uniq[m][slot].children[index].slot;
    } else {
      LeafChildPtr(h, levels, slot, index);
      LeafChildRef(h, levels, slot, index, node.offset, PopcountBelow(mask.bits, index));
      LeafChildOccupied(h, levels, slot, index, morton);
    }
    var w := DAG.GetChildPointer(level, node.offset, index);
    next := w.target;
  }

  /** `build` (DAG.cpp:39-393): compact the octree, then size and pack its canonical levels.
      The octree's leaf words are left as they were. */
  method Build(levelsVal: nat, svo: seq<array<Node>>, svoLeaves: array<Word64>,
               ghost s0: seq<seq<Node>>, ghost leaves0: seq<Word64>)
    returns (packed: seq<array<Word>>, uniqueLeafs: array<Word64>, sizes: array<nat>, ghost hf: Heap)
    requires 3 <= levelsVal && |svo| == levelsVal - 2 && |s0| == levelsVal - 2
    requires forall i, j :: 0 <= i < j < |svo| ==> svo[i] != svo[j]
    requires forall k :: 0 <= k < |svo| ==> svo[k][..] == s0[k]
    requires svoLeaves[..] == leaves0 && OctreeShape(OriginalHeap(s0, leaves0), levelsVal)
    modifies set k | 0 <= k < |svo| :: svo[k]
    ensures Packs(packed, uniqueLeafs, svoLeaves, sizes, OriginalHeap(s0, leaves0), hf, levelsVal)
  {
    var newLevels;
    newLevels, uniqueLeafs, hf := Compact(levelsVal, svo, svoLeaves, s0, leaves0);
    packed, sizes := PackLevels(levelsVal, newLevels, uniqueLeafs, hf);
  }

  /** `build`'s sizing and packing (DAG.cpp:290-393): size every level, then pack them. */
  method PackLevels(levels: nat, newLevels: seq<array<Node>>, uniqueLeafs: array<Word64>, ghost hf: Heap)
    returns (packed: seq<array<Word>>, sizeAtLevel: array<nat>)
    requires CanonicalDag(hf, levels) && |newLevels| == levels - 2
    requires forall k :: 0 <= k < levels - 2 ==> newLevels[k][..] == hf.uniq[k]
    ensures |packed| == levels - 2 && sizeAtLevel.Length == levels - 1
    ensures fresh(sizeAtLevel) && forall k :: 0 <= k < levels - 2 ==> fresh(packed[k])
    ensures forall k :: 0 <= k < levels - 2 ==>
      packed[k][..] == PackLevel(hf, levels, k) && sizeAtLevel[k] == LevelSize(hf.uniq[k])
    ensures sizeAtLevel[levels - 2] == uniqueLeafs.Length
  {
    packed, sizeAtLevel := SizeLevels(levels, newLevels, uniqueLeafs, hf);
    FillLevels(levels, newLevels, packed, hf);
  }

  /** The sizing half (DAG.cpp:290-313): level k of the packed DAG takes one word per node
      and one per pointer; the leaf level is the canonical leaf buffer. */
  method SizeLevels(levels: nat, newLevels: seq<array<Node>>, uniqueLeafs: array<Word64>, ghost hf: Heap)
    returns (packed: seq<array<Word>>, sizeAtLevel: array<nat>)
    requires 3 <= levels && |newLevels| == levels - 2 && |hf.uniq| == levels - 2
    requires forall k :: 0 <= k < levels - 2 ==> newLevels[k][..] == hf.uniq[k]
    ensures |packed| == levels - 2 && sizeAtLevel.Length == levels - 1
    ensures fresh(sizeAtLevel) && forall k :: 0 <= k < levels - 2 ==> fresh(packed[k])
    ensures forall a, b :: 0 <= a < b < levels - 2 ==> packed[a] != packed[b]
    ensures forall k :: 0 <= k < levels - 2 ==>
      packed[k].Length == LevelSize(hf.uniq[k]) && sizeAtLevel[k] == LevelSize(hf.uniq[k])
    ensures sizeAtLevel[levels - 2] == uniqueLeafs.Length
  {
    sizeAtLevel := new nat[levels - 1];
    packed := [];
    for k := 0 to levels - 2
      invariant |packed| == k
      invariant forall j :: 0 <= j < k ==> fresh(packed[j])
      invariant forall a, b :: 0 <= a < b < k ==> packed[a] != packed[b]
      invariant forall j :: 0 <= j < k ==>
        packed[j].Length == LevelSize(hf.uniq[j]) && sizeAtLevel[j] == LevelSize(hf.uniq[j])
    {
      var pointerCount := CountPointers(newLevels[k]);
      sizeAtLevel[k] := pointerCount + newLevels[k].Length;
      var buf := new Word[sizeAtLevel[k]](_ => Mask(0));
      packed := packed + [buf];
    }
    sizeAtLevel[levels - 2] := uniqueLeafs.Length;
  }

  /** The packing half (DAG.cpp:317-393): the leaf-parent level copies its leaf pointers, and
      every level above it, from L-4 up to 0, looks its children up in the address map of the
      level below. */
  method FillLevels(levels: nat, newLevels: seq<array<Node>>, packed: seq<array<Word>>, ghost hf: Heap)
    requires CanonicalDag(hf, levels) && |newLevels| == levels - 2 && |packed| == levels - 2
    requires forall k :: 0 <= k < levels - 2 ==> newLevels[k][..] == hf.uniq[k]
    requires forall a, b :: 0 <= a < b < levels - 2 ==> packed[a] != packed[b]
    requires forall k :: 0 <= k < levels - 2 ==> packed[k].Length == LevelSize(hf.uniq[k])
    modifies packed
    ensures forall k :: 0 <= k < levels - 2 ==> packed[k][..] == PackLevel(hf, levels, k)
  {
    ghost var below: nat := levels - 3;
    assert LevelClosed(hf, levels, below, hf.uniq[below]);
    assert newLevels[levels - 3][..] == hf.uniq[below];
    assert packed[levels - 3].Length == LevelSize(hf.uniq[below]);
    var addr := FillLeafParent(newLevels[levels - 3], packed[levels - 3], hf, levels, below);
    var levelIndex: int := levels - 4;
    while levelIndex >= 0
      invariant -1 <= levelIndex <= levels - 4 && below == levelIndex + 1
      invariant AddressMapOf(addr, hf.uniq[below])
      invariant forall j :: below <= j < levels - 2 ==> packed[j][..] == PackLevel(hf, levels, j)
    {
      assert LevelClosed(hf, levels, levelIndex, hf.uniq[levelIndex]);
      addr := FillLevel(newLevels[levelIndex], packed[levelIndex], hf, levels, levelIndex, below, addr);
      below := levelIndex;
      levelIndex := levelIndex - 1;
    }
  }

  /** The leaf-parent pass (DAG.cpp:320-347): level L-3 copies its leaf pointers; its address
      map is returned for level L-4. */
  method FillLeafParent(nodes: array<Node>, buf: array<Word>, ghost hf: Heap, ghost levels: nat, ghost k: nat)
    returns (next: map<Ptr, Ptr>)
    requires 3 <= levels && |hf.uniq| == levels - 2 && k == levels - 3
    requires LevelClosed(hf, levels, k, hf.uniq[k]) && nodes[..] == hf.uniq[k]
    requires buf.Length == LevelSize(hf.uniq[k])
    modifies buf
    ensures buf[..] == PackLevel(hf, levels, k) && AddressMapOf(next, hf.uniq[k])
  {
    var ok;
    ok, next := EncodeLevelInto(nodes, buf, Direct);
  }

  /** One pass of the upper packing loop (DAG.cpp:352-390): level `k` is encoded through the
      address map of level `below` = k+1, and its own address map is returned for level k-1. */
  method FillLevel(nodes: array<Node>, buf: array<Word>, ghost hf: Heap, ghost levels: nat,
                   ghost k: nat, ghost below: nat, addr: map<Ptr, Ptr>)
    returns (next: map<Ptr, Ptr>)
    requires 3 <= levels && |hf.uniq| == levels - 2 && k < levels - 3 && below == k + 1
    requires LevelClosed(hf, levels, k, hf.uniq[k]) && nodes[..] == hf.uniq[k]
    requires buf.Length == LevelSize(hf.uniq[k]) && AddressMapOf(addr, hf.uniq[below])
    modifies buf
    ensures buf[..] == PackLevel(hf, levels, k) && AddressMapOf(next, hf.uniq[k])
  {
    ClosedResolvable(hf, levels, k, below, addr);
    var ok;
    ok, next := EncodeLevelInto(nodes, buf, Through(addr));
  }

  /** The constructor's guard (DAG.cpp:16-21): fewer than three levels is an error;
      otherwise the DAG of the given octree. */
  method NewDAG(levelsVal: nat, svo: seq<array<Node>>, svoLeaves: array<Word64>,
                ghost s0: seq<seq<Node>>, ghost leaves0: seq<Word64>)
    returns (r: Result<DAG, BuildError>)
    requires 3 <= levelsVal ==>
      && |svo| == levelsVal - 2 && |s0| == levelsVal - 2
      && (forall i, j :: 0 <= i < j < |svo| ==> svo[i] != svo[j])
      && (forall k :: 0 <= k < |svo| ==> svo[k][..] == s0[k])
      && svoLeaves[..] == leaves0 && OctreeShape(OriginalHeap(s0, leaves0), levelsVal)
    modifies set k | 0 <= k < |svo| :: svo[k]
    ensures r.Failure? <==> levelsVal <= 2
    ensures r.Success? ==>
      && fresh(r.value) && r.value.Valid() && r.value.numLevels == levelsVal
      && r.value.size == Pow(8, levelsVal) && r.value.dimension == Pow(2, levelsVal)
      && r.value.original == OriginalHeap(s0, leaves0)
  {
    if levelsVal <= 2 {
      return Failure(LevelsTooSmall);
    }
    var dag := new DAG(levelsVal, svo, svoLeaves, s0, leaves0);
    r := Success(dag);
  }
}
