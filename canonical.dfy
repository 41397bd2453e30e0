/**
 * Level canonicalisation (DAG.cpp:74-114 for leaf words, 182-225 for branch nodes): copy the
 * level, sort the copy, count the runs of equal neighbours and keep the first element of
 * every run.  `std::sort` is modelled by what it delivers, a sorted permutation of its input.
 */
module Canonical {

  ghost predicate Total<T(!new)>(le: (T, T) -> bool) {
    forall a, b :: le(a, b) || le(b, a)
  }

  ghost predicate Antisymmetric<T(!new)>(le: (T, T) -> bool) {
    forall a, b :: le(a, b) && le(b, a) ==> a == b
  }

  ghost predicate Transitive<T(!new)>(le: (T, T) -> bool) {
    forall a, b, c :: le(a, b) && le(b, c) ==> le(a, c)
  }

  ghost predicate TotalOrder<T(!new)>(le: (T, T) -> bool) {
    Total(le) && Antisymmetric(le) && Transitive(le)
  }

  /** Neighbours are in order. */
  predicate Sorted<T>(s: seq<T>, le: (T, T) -> bool) {
    forall i :: 0 <= i < |s| - 1 ==> le(s[i], s[i + 1])
  }

  /** No two elements are equal and every element is before every later one. */
  predicate StrictlySorted<T(==)>(s: seq<T>, le: (T, T) -> bool) {
    forall i, j :: 0 <= i < j < |s| ==> le(s[i], s[j]) && s[i] != s[j]
  }

  function Insert<T>(x: T, s: seq<T>, le: (T, T) -> bool): (r: seq<T>)
    ensures |r| == |s| + 1
  {
    if |s| == 0 then [x]
    else if le(x, s[0]) then [x] + s
    else [s[0]] + Insert(x, s[1..], le)
  }

  /** What `std::sort` delivers: an ordered permutation (an insertion sort here). */
  function Sort<T>(s: seq<T>, le: (T, T) -> bool): (r: seq<T>)
    ensures |r| == |s|
  {
    if |s| == 0 then []
    else Insert(s[0], Sort(s[1..], le), le)
  }

  lemma {:induction false} InsertPermutation<T>(x: T, s: seq<T>, le: (T, T) -> bool)
    ensures multiset(Insert(x, s, le)) == multiset(s) + multiset{x}
  {
    if |s| > 0 {
      assert s == [s[0]] + s[1..];
      if !le(x, s[0]) {
        InsertPermutation(x, s[1..], le);
      }
    }
  }

  /** The sorted copy is a permutation of the level. */
  lemma {:induction false} SortPermutation<T>(s: seq<T>, le: (T, T) -> bool)
    ensures multiset(Sort(s, le)) == multiset(s)
  {
    if |s| > 0 {
      assert s == [s[0]] + s[1..];
      SortPermutation(s[1..], le);
      InsertPermutation(s[0], Sort(s[1..], le), le);
    }
  }

  lemma {:induction false} InsertSorted<T(!new)>(x: T, s: seq<T>, le: (T, T) -> bool)
    requires Total(le) && Sorted(s, le)
    ensures Sorted(Insert(x, s, le), le)
    ensures |s| > 0 && !le(x, s[0]) ==> Insert(x, s, le)[0] == s[0]
  {
    if |s| > 0 && !le(x, s[0]) {
      InsertSorted(x, s[1..], le);
      var t := Insert(x, s[1..], le);
      assert t[0] == x || t[0] == s[1];
    }
  }

  lemma {:induction false} SortSorted<T(!new)>(s: seq<T>, le: (T, T) -> bool)
    requires Total(le)
    ensures Sorted(Sort(s, le), le)
  {
    if |s| > 0 {
      SortSorted(s[1..], le);
      InsertSorted(s[0], Sort(s[1..], le), le);
    }
  }

  /** The first element of every run of equal neighbours, in order. */
  function Dedup<T(==)>(s: seq<T>): seq<T> {
    if |s| <= 1 then s
    else if s[|s| - 2] != s[|s| - 1] then Dedup(s[..|s| - 1]) + [s[|s| - 1]]
    else Dedup(s[..|s| - 1])
  }

  /** Number of neighbouring pairs that differ: what the counting loops of DAG.cpp:89-95
      and 201-207 add to 1. */
  function AdjacentUnequal<T(==)>(s: seq<T>): nat {
    if |s| <= 1 then 0
    else AdjacentUnequal(s[..|s| - 1]) + (if s[|s| - 2] != s[|s| - 1] then 1 else 0)
  }

  lemma {:induction false} DedupEnds<T>(s: seq<T>)
    requires |s| >= 1
    ensures |Dedup(s)| >= 1
    ensures Dedup(s)[0] == s[0] && Dedup(s)[|Dedup(s)| - 1] == s[|s| - 1]
  {
    if |s| > 1 {
      DedupEnds(s[..|s| - 1]);
    }
  }

  /** The canonical array holds one entry per run: 1 plus the number of unequal neighbours. */
  lemma {:induction false} DedupLength<T>(s: seq<T>)
    requires |s| >= 1
    ensures |Dedup(s)| == 1 + AdjacentUnequal(s)
  {
    if |s| > 1 {
      DedupLength(s[..|s| - 1]);
    }
  }

  /** Every value of the input is kept, and nothing else. */
  lemma {:induction false} DedupMembers<T>(s: seq<T>)
    ensures forall x :: x in Dedup(s) <==> x in s
  {
    if |s| > 1 {
      var p := s[..|s| - 1];
      DedupMembers(p);
      assert s == p + [s[|s| - 1]];
      if s[|s| - 2] == s[|s| - 1] {
        assert s[|s| - 1] in p;
      }
    }
  }

  /** No two neighbours of the canonical array are equal. */
  lemma {:induction false} DedupNeighboursDiffer<T>(s: seq<T>)
    ensures forall i :: 0 <= i < |Dedup(s)| - 1 ==> Dedup(s)[i] != Dedup(s)[i + 1]
  {
    if |s| > 1 {
      var p := s[..|s| - 1];
      DedupNeighboursDiffer(p);
      DedupEnds(p);
    }
  }

  lemma {:induction false} DedupSorted<T>(s: seq<T>, le: (T, T) -> bool)
    requires Sorted(s, le)
    ensures Sorted(Dedup(s), le)
  {
    if |s| > 1 {
      var p := s[..|s| - 1];
      assert Sorted(p, le);
      DedupSorted(p, le);
      DedupEnds(p);
    }
  }

  lemma {:induction false} SortedTransitive<T(!new)>(s: seq<T>, le: (T, T) -> bool, i: nat, j: nat)
    requires Transitive(le) && Sorted(s, le) && i < j < |s|
    ensures le(s[i], s[j])
    decreases j - i
  {
    if i + 1 < j {
      SortedTransitive(s, le, i + 1, j);
    }
  }

  /** Ordered neighbours that always differ make a strictly ordered array, so no value
      occurs twice. */
  lemma StrictFromNeighbours<T(!new)>(s: seq<T>, le: (T, T) -> bool)
    requires TotalOrder(le) && Sorted(s, le)
    requires forall i :: 0 <= i < |s| - 1 ==> s[i] != s[i + 1]
    ensures StrictlySorted(s, le)
  {
    forall i, j | 0 <= i < j < |s|
      ensures le(s[i], s[j]) && s[i] != s[j]
    {
      SortedTransitive(s, le, i, j);
      SortedTransitive(s, le, i, i + 1);
      if i + 1 < j {
        SortedTransitive(s, le, i + 1, j);
      }
    }
  }

  /** The canonical copy holds exactly the values of the level, whatever the order. */
  lemma CanonicalMembers<T(!new)>(s: seq<T>, le: (T, T) -> bool)
    ensures forall x :: x in Dedup(Sort(s, le)) <==> x in s
  {
    DedupMembers(Sort(s, le));
    SortPermutation(s, le);
    assert forall x :: x in Sort(s, le) <==> x in multiset(Sort(s, le));
  }

  /** Everything the canonicaliser promises about its output. */
  lemma CanonicalLevel<T(!new)>(s: seq<T>, le: (T, T) -> bool)
    requires TotalOrder(le) && |s| >= 1
    ensures var u := Dedup(Sort(s, le));
      && StrictlySorted(u, le)
      && (forall x :: x in u <==> x in s)
      && |u| == 1 + AdjacentUnequal(Sort(s, le))
  {
    var sorted := Sort(s, le);
    SortSorted(s, le);
    DedupSorted(sorted, le);
    DedupNeighboursDiffer(sorted);
    StrictFromNeighbours(Dedup(sorted), le);
    CanonicalMembers(s, le);
    DedupLength(sorted);
  }

  /** The scratch copy of a level, sorted in place (DAG.cpp:75-76, 184-186). */
  method SortedCopy<T(0)>(level: array<T>, le: (T, T) -> bool) returns (copy: array<T>)
    ensures fresh(copy) && copy[..] == Sort(level[..], le)
  {
    var original := level[..];
    var sorted := Sort(original, le);
    assert |sorted| == level.Length;
    copy := new T[level.Length];
    forall i | 0 <= i < copy.Length {
      copy[i] := sorted[i];
    }
    assert copy[..] == sorted;
    assert level[..] == original;
  }

  /** `numUniqueLeafs` / `numUniqueChildren` (DAG.cpp:88-95, 200-207). */
  method CountUnique<T(==)>(a: array<T>) returns (n: nat)
    requires a.Length >= 1
    ensures n == 1 + AdjacentUnequal(a[..])
  {
    n := 1;
    var i := 0;
    while i < a.Length - 1
      invariant 0 <= i <= a.Length - 1
      invariant n == 1 + AdjacentUnequal(a[..i + 1])
    {
      assert a[..i + 2][..i + 1] == a[..i + 1];
      if a[i] != a[i + 1] {
        n := n + 1;
      }
      i := i + 1;
    }
    assert a[..i + 1] == a[..];
  }

  lemma {:induction false} DedupPrefixLength<T>(s: seq<T>, k: nat)
    requires 1 <= k <= |s|
    ensures |Dedup(s[..k])| <= |Dedup(s)|
    decreases |s| - k
  {
    if k < |s| {
      DedupPrefixLength(s, k + 1);
      assert s[..k + 1][..k] == s[..k];
    } else {
      assert s[..k] == s;
    }
  }

  /** Emits the first element of every run into a fresh array of `n` entries
      (DAG.cpp:99-114, 210-225). */
  method EmitUnique<T(0,==)>(a: array<T>, n: nat) returns (unique: array<T>)
    requires a.Length >= 1 && n == |Dedup(a[..])|
    ensures fresh(unique) && unique[..] == Dedup(a[..])
  {
    DedupEnds(a[..]);
    unique := new T[n];
    unique[0] := a[0];
    var uniqueIndex := 1;
    var i := 0;
    assert a[..1] == [a[0]];
    while i < a.Length - 1
      invariant 0 <= i <= a.Length - 1
      invariant uniqueIndex == |Dedup(a[..i + 1])| <= n
      invariant unique[..uniqueIndex] == Dedup(a[..i + 1])
    {
      assert a[..i + 2][..i + 1] == a[..i + 1];
      DedupPrefixLength(a[..], i + 2);
      if a[i] != a[i + 1] {
        unique[uniqueIndex] := a[i + 1];
        uniqueIndex := uniqueIndex + 1;
      }
      i := i + 1;
    }
    assert a[..i + 1] == a[..];
  }

  /** A canonical copy of a level: sorted, with each distinct value once. */
  method Canonicalize<T(0,==)>(level: array<T>, le: (T, T) -> bool) returns (unique: array<T>)
    requires level.Length >= 1
    ensures fresh(unique) && unique[..] == Dedup(Sort(level[..], le))
  {
    var copy := SortedCopy(level, le);
    var numUnique := CountUnique(copy);
    DedupLength(copy[..]);
    unique := EmitUnique(copy, numUnique);
  }
}
