/**
 * The bit operations of DAG.cpp on 64-bit words.  A word is its unsigned value (a `nat`
 * below 2^64); `&`, `|` and `<<` are defined on those values, bit by bit.
 */
module Bits {
  import opened Octree
  import Digits

  const WordModulus: nat := 0x1_0000_0000_0000_0000

  /** A `uint64_t` value. */
  type Word64 = x: int | 0 <= x < WordModulus

  function Pow2(i: nat): (r: nat)
    ensures r > 0
  {
    if i == 0 then 1 else 2 * Pow2(i - 1)
  }

  /** `(x & (1L << i)) != 0`: bit `i` of `x`. */
  predicate TestBit(x: nat, i: nat) {
    if i == 0 then x % 2 == 1 else TestBit(x / 2, i - 1)
  }

  /** `a | b`, bit by bit. */
  function Or(a: nat, b: nat): nat
    decreases a + b
  {
    if a == 0 then b
    else if b == 0 then a
    else 2 * Or(a / 2, b / 2) + (if a % 2 == 1 || b % 2 == 1 then 1 else 0)
  }

  /** `x << 1` on a 64-bit word. */
  function ShiftLeft1(x: nat): nat {
    (2 * x) % WordModulus
  }

  /** `isChildSet` (DAG.cpp:558-564): bit `i` of a node's mask word, the remainder of
      `mask / 2^i` modulo 2. */
  predicate IsChildSet(mask: nat, i: nat)
    ensures IsChildSet(mask, i) <==> (mask / Pow2(i)) % 2 == 1
  {
    TestBitDiv(mask, i);
    TestBit(mask, i)
  }

  /** `isLeafSet` (DAG.cpp:545-550): bit `i` of a 64-bit leaf word, the remainder of
      `leaf / 2^i` modulo 2. */
  predicate IsLeafSet(leaf: Word64, i: nat)
    requires i < 64
    ensures IsLeafSet(leaf, i) <==> (leaf / Pow2(i)) % 2 == 1
  {
    TestBitDiv(leaf, i);
    TestBit(leaf, i)
  }

  /** Bit `i` of `x` is the remainder of `x / 2^i` modulo 2. */
  lemma {:induction false} TestBitDiv(x: nat, i: nat)
    ensures TestBit(x, i) <==> (x / Pow2(i)) % 2 == 1
  {
    if i > 0 {
      TestBitDiv(x / 2, i - 1);
      DivTwice(x, Pow2(i - 1));
    }
  }

  /** Halving and then dividing by `m` is dividing by `2 * m`. */
  lemma DivTwice(x: nat, m: nat)
    requires m > 0
    ensures (x / 2) / m == x / (2 * m)
  {
    var h, b := x / 2, x % 2;
    var q, r := h / m, h % m;
    assert h == m * q + r;
    assert (2 * m) * q == 2 * (m * q);
    Digits.DivUnique(x, 2 * m, q, 2 * r + b);
  }

  lemma {:induction false} TestBitZero(i: nat)
    ensures !TestBit(0, i)
  {
    if i > 0 {
      TestBitZero(i - 1);
    }
  }

  lemma {:induction false} TestBitOr(a: nat, b: nat, i: nat)
    ensures TestBit(Or(a, b), i) <==> TestBit(a, i) || TestBit(b, i)
    decreases i
  {
    if a == 0 {
      TestBitZero(i);
    } else if b == 0 {
      TestBitZero(i);
    } else if i > 0 {
      TestBitOr(a / 2, b / 2, i - 1);
    }
  }

  lemma {:induction false} TestBitPow2(k: nat, i: nat)
    ensures TestBit(Pow2(k), i) <==> i == k
  {
    if k == 0 {
      if i > 0 {
        TestBitZero(i - 1);
      }
    } else if i > 0 {
      TestBitPow2(k - 1, i - 1);
    }
  }

  lemma TestBitDouble(x: nat, i: nat)
    ensures TestBit(2 * x, i) <==> 1 <= i && TestBit(x, i - 1)
  {
    if i > 0 {
      assert (2 * x) / 2 == x;
    }
  }

  lemma {:induction false} TestBitBelow(x: nat, n: nat, i: nat)
    requires x < Pow2(n) && n <= i
    ensures !TestBit(x, i)
  {
    if n == 0 {
      TestBitZero(i);
    } else if i > 0 {
      TestBitBelow(x / 2, n - 1, i - 1);
    }
  }

  lemma {:induction false} OrBound(a: nat, b: nat, n: nat)
    requires a < Pow2(n) && b < Pow2(n)
    ensures Or(a, b) < Pow2(n)
    decreases a + b
  {
    if a != 0 && b != 0 {
      OrBound(a / 2, b / 2, n - 1);
    }
  }

  /** `a | b` is nonzero when `a` is. */
  lemma {:induction false} OrNonZero(a: nat, b: nat)
    requires a > 0
    ensures Or(a, b) > 0
    decreases a + b
  {
    if b != 0 && a % 2 == 0 {
      OrNonZero(a / 2, b / 2);
    }
  }

  /** Number of set bits of `mask` below position `n`: the references that precede octant
      `n`'s reference in a packed node. */
  function PopcountBelow(mask: nat, n: nat): nat {
    if n == 0 then 0 else PopcountBelow(mask, n - 1) + (if IsChildSet(mask, n - 1) then 1 else 0)
  }

  /** The mask the encoder builds over the first `n` octants (DAG.cpp:364-387):
      `mask |= 1 << j` for every present child `j`; it fits in the low `n` bits. */
  function ChildMaskUpTo(cs: seq<Ptr>, n: nat): (r: nat)
    requires n <= |cs|
    ensures r < Pow2(n)
  {
    if n == 0 then 0
    else
      var a := ChildMaskUpTo(cs, n - 1);
      var b := if cs[n - 1] != Null then Pow2(n - 1) else 0;
      OrBound(a, b, n);
      Or(a, b)
  }

  function ChildMask(cs: seq<Ptr>): nat {
    ChildMaskUpTo(cs, |cs|)
  }

  /** The mask the leaf-parent encoder builds over the first `n` octants as DAG.cpp:328-343
      writes it: `mask |= 1` for a present child, then `mask <<= 1` for every octant. */
  function ChildMaskAsWrittenUpTo(cs: seq<Ptr>, n: nat): (r: nat)
    requires n <= |cs| && n <= Octants
    ensures r < Pow2(n + 1) && r % 2 == 0
  {
    if n == 0 then 0
    else
      var a := ChildMaskAsWrittenUpTo(cs, n - 1);
      var b := if cs[n - 1] != Null then 1 else 0;
      OrBound(a, b, n);
      PowMonotone(n, Octants);
      Pow2Octants();
      ShiftNoWrap(Or(a, b));
      ShiftLeft1(Or(a, b))
  }

  /** The as-written leaf-parent mask fits in `|cs| + 1` bits, and the shift after every
      octant leaves bit 0 clear. */
  function ChildMaskAsWritten(cs: seq<Ptr>): (r: nat)
    requires |cs| <= Octants
    ensures r < Pow2(|cs| + 1) && r % 2 == 0
  {
    ChildMaskAsWrittenUpTo(cs, |cs|)
  }

  lemma {:induction false} PowMonotone(m: nat, n: nat)
    requires m <= n
    ensures Pow2(m) <= Pow2(n)
  {
    if m < n {
      PowMonotone(m, n - 1);
    }
  }

  /** Bit `i` of the encoder's mask is set exactly when child `i` is present. */
  lemma {:induction false} ChildMaskUpToBits(cs: seq<Ptr>, n: nat, i: nat)
    requires n <= |cs|
    ensures IsChildSet(ChildMaskUpTo(cs, n), i) <==> i < n && cs[i] != Null
  {
    if n == 0 {
      TestBitZero(i);
    } else {
      ChildMaskUpToBits(cs, n - 1, i);
      var a := ChildMaskUpTo(cs, n - 1);
      var b := if cs[n - 1] != Null then Pow2(n - 1) else 0;
      TestBitOr(a, b, i);
      if cs[n - 1] != Null {
        TestBitPow2(n - 1, i);
      } else {
        TestBitZero(i);
      }
    }
  }

  lemma ChildMaskBits(cs: seq<Ptr>, i: nat)
    ensures IsChildSet(ChildMask(cs), i) <==> i < |cs| && cs[i] != Null
  {
    ChildMaskUpToBits(cs, |cs|, i);
  }

  /** As written, bit `b` of the leaf-parent mask after `n` octants is set exactly when
      `1 <= b <= n` and child `n - b` is present: child `j` lands on bit `n - j`. */
  lemma {:induction false} ChildMaskAsWrittenUpToBits(cs: seq<Ptr>, n: nat, b: nat)
    requires n <= |cs| && n <= Octants
    ensures IsChildSet(ChildMaskAsWrittenUpTo(cs, n), b) <==> 1 <= b <= n && cs[n - b] != Null
  {
    if n == 0 {
      TestBitZero(b);
    } else {
      var a := ChildMaskAsWrittenUpTo(cs, n - 1);
      var c := if cs[n - 1] != Null then 1 else 0;
      var o := Or(a, c);
      AsWrittenStep(cs, n, a, c);
      TestBitDouble(o, b);
      if 1 <= b {
        ChildMaskAsWrittenUpToBits(cs, n - 1, b - 1);
        TestBitOr(a, c, b - 1);
        if cs[n - 1] != Null {
          TestBitPow2(0, b - 1);
        } else {
          TestBitZero(b - 1);
        }
      }
    }
  }

  /** One octant of the as-written loop: the shift never wraps, since the mask stays below 2^9. */
  lemma AsWrittenStep(cs: seq<Ptr>, n: nat, a: nat, c: nat)
    requires 1 <= n <= |cs| && n <= Octants
    requires a == ChildMaskAsWrittenUpTo(cs, n - 1) && c == (if cs[n - 1] != Null then 1 else 0)
    ensures ChildMaskAsWrittenUpTo(cs, n) == 2 * Or(a, c)
  {
    OrBound(a, c, n);
    PowMonotone(n, Octants);
    Pow2Octants();
    ShiftNoWrap(Or(a, c));
  }

  lemma ShiftNoWrap(x: nat)
    requires x < 256
    ensures ShiftLeft1(x) == 2 * x
  {
  }

  lemma Pow2Octants()
    ensures Pow2(Octants) == 256
  {
  }

  /** For an eight-octant node the as-written leaf-parent mask puts child `j` on bit `8 - j`
      and always leaves bit 0 clear. */
  lemma ChildMaskAsWrittenBits(cs: seq<Ptr>)
    requires |cs| == Octants
    ensures forall j :: 0 <= j < Octants ==> (IsChildSet(ChildMaskAsWritten(cs), Octants - j) <==> cs[j] != Null)
    ensures !IsChildSet(ChildMaskAsWritten(cs), 0)
  {
    forall j | 0 <= j < Octants
      ensures IsChildSet(ChildMaskAsWritten(cs), Octants - j) <==> cs[j] != Null
    {
      ChildMaskAsWrittenUpToBits(cs, Octants, Octants - j);
    }
    ChildMaskAsWrittenUpToBits(cs, Octants, 0);
  }

  /** Below octant `j` the mask has as many set bits as there are present children before `j`. */
  lemma {:induction false} PopcountBelowChildMask(cs: seq<Ptr>, j: nat)
    requires j <= |cs|
    ensures PopcountBelow(ChildMask(cs), j) == |PresentUpTo(cs, j)|
  {
    if j > 0 {
      PopcountBelowChildMask(cs, j - 1);
      ChildMaskBits(cs, j - 1);
    }
  }

  /** The present children of the first `i` octants are a prefix of those of the first `n`. */
  lemma {:induction false} PresentPrefixAppend(cs: seq<Ptr>, i: nat, n: nat)
    requires i <= n <= |cs|
    ensures PresentUpTo(cs, i) <= PresentUpTo(cs, n)
  {
    if i < n {
      PresentPrefixAppend(cs, i, n - 1);
    }
  }

  /** The present child of rank `|PresentUpTo(cs, j)|` is child `j`. */
  lemma PresentRank(cs: seq<Ptr>, j: nat)
    requires j < |cs| && cs[j] != Null
    ensures |PresentUpTo(cs, j)| < |Present(cs)|
    ensures Present(cs)[|PresentUpTo(cs, j)|] == cs[j]
  {
    PresentPrefixAppend(cs, j + 1, |cs|);
  }

  /** Popcount offset law: the reference of present octant `j` sits at rank
      `PopcountBelow(mask, j)` in the run of references that follows the mask, and that run
      is exactly as long as the mask has set bits. */
  lemma PopcountOffsetLaw(cs: seq<Ptr>, j: nat)
    requires j < |cs| && cs[j] != Null
    ensures PopcountBelow(ChildMask(cs), j) < |Present(cs)|
    ensures Present(cs)[PopcountBelow(ChildMask(cs), j)] == cs[j]
    ensures PopcountBelow(ChildMask(cs), |cs|) == |Present(cs)|
  {
    PopcountBelowChildMask(cs, j);
    PresentRank(cs, j);
    PopcountBelowChildMask(cs, |cs|);
  }

  /** The mask of a node has as many set bits as the node has children. */
  lemma PopcountChildMask(cs: seq<Ptr>)
    ensures PopcountBelow(ChildMask(cs), |cs|) == |Present(cs)|
  {
    PopcountBelowChildMask(cs, |cs|);
  }
}
