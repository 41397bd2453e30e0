/**
 * Base-8 digit arithmetic of the query (DAG.cpp:428-451): `divBy` runs through the powers
 * 8^(L-1), ..., 8^2, and each index is one base-8 digit of the Morton index.
 */
module Digits {
  import opened Octree

  /** Base-8 digit `k` of `x`, counting from the least significant. */
  function DigitAt(x: nat, k: nat): (d: nat)
    ensures d < Octants
  {
    if k == 0 then x % 8 else DigitAt(x / 8, k - 1)
  }

  /** The octant chosen at branch level `m` of an `L`-level structure: digit L-1-m. */
  function Digit(morton: nat, levels: nat, m: nat): (d: nat)
    requires m < levels
    ensures d < Octants
  {
    DigitAt(morton, levels - 1 - m)
  }

  /** Digit `k` is the quotient by 8^k, reduced modulo 8. */
  lemma {:induction false} DigitAtIs(x: nat, k: nat)
    ensures Pow(8, k) > 0 && DigitAt(x, k) == (x / Pow(8, k)) % 8
  {
    PowPositive(8, k);
    if k > 0 {
      DigitAtIs(x / 8, k - 1);
      PowPositive(8, k - 1);
      DivDiv(x, Pow(8, k - 1));
    }
  }

  /** Dividing by 8p is dividing by 8, then by p. */
  lemma DivDiv(x: nat, p: nat)
    requires p > 0
    ensures x / (8 * p) == (x / 8) / p
  {
    var q := x / 8;
    var a := q / p;
    var b := q % p;
    assert x == 8 * q + x % 8;
    assert q == p * a + b;
    assert x == (8 * p) * a + (8 * b + x % 8);
    assert 8 * b + x % 8 < 8 * p;
    DivUnique(x, 8 * p, a, 8 * b + x % 8);
  }

  lemma Pow8Step(e: nat)
    ensures Pow(8, e + 1) == 8 * Pow(8, e) && Pow(8, e + 1) / 8 == Pow(8, e)
  {
  }

  lemma {:induction false} Pow8AtLeast64(e: nat)
    ensures Pow(8, e) >= 64 <==> e >= 2
  {
    if e >= 2 {
      assert Pow(8, 2) == 64;
      PowAdd(8, 2, e - 2);
      PowPositive(8, e - 2);
    }
  }

  /** Quotient and remainder are the unique ones. */
  lemma DivUnique(x: int, d: int, a: int, b: int)
    requires d > 0 && 0 <= b < d && x == d * a + b
    ensures x / d == a && x % d == b
  {
    var q := x / d;
    var r := x % d;
    assert x == d * q + r;
    assert d * q - d * a == b - r;
    assert d * (q - a) == b - r;
    if q > a {
      MulAtLeast(d, q - a);
    } else if q < a {
      MulAtLeast(d, a - q);
    }
  }

  lemma MulAtLeast(d: int, k: int)
    requires d > 0 && k >= 1
    ensures d * k >= d
  {
    assert d * k == d * (k - 1) + d;
  }

  /** The digit the query extracts, `(morton % modBy) / divBy`, is the base-8 digit. */
  lemma DigitOfRemainder(x: nat, d: nat)
    requires d > 0
    ensures (x % (8 * d)) / d == (x / d) % 8
  {
    var q := x / (8 * d);
    var r := x % (8 * d);
    var s := r / d;
    var t := r % d;
    assert s < 8;
    assert x == d * (8 * q + s) + t;
    DivUnique(x, d, 8 * q + s, t);
    DivUnique(8 * q + s, 8, q, s);
  }

  /** The first index, `morton / divBy`, is the top digit of an index below 8^L. */
  lemma TopDigit(x: nat, d: nat)
    requires d > 0 && x < 8 * d
    ensures x / d < 8 && x / d == (x / d) % 8
  {
  }

  /** One step of the query's descent from level `m` to level `below` = m+1, where `divBy`
      is 8^e and e = e1+1: `divBy / 8` is 8^e1, and the next index, `(morton % modBy) / divBy`
      with the old `divBy` as `modBy`, is the digit of level `below`. */
  lemma NextDigit(morton: nat, levels: nat, m: nat, below: nat, e: nat, e1: nat, divBy: nat)
    requires below == m + 1 && below < levels && e == levels - 1 - m && e1 + 1 == e && divBy == Pow(8, e)
    ensures divBy / 8 == Pow(8, e1) && divBy / 8 > 0 && divBy == (divBy / 8) * 8
    ensures (morton % divBy) / (divBy / 8) == Digit(morton, levels, below)
  {
    Pow8Step(e1);
    PowPositive(8, e1);
    DigitOfRemainder(morton, divBy / 8);
    DigitAtIs(morton, e1);
  }

  /** The query's first index, `morton / 8^(L-1)`, is the root's digit. */
  lemma FirstDigit(morton: nat, levels: nat)
    requires 1 <= levels && morton < Pow(8, levels)
    ensures Pow(8, levels - 1) > 0 && morton / Pow(8, levels - 1) == Digit(morton, levels, 0)
  {
    PowPositive(8, levels - 1);
    Pow8Step(levels - 1);
    TopDigit(morton, Pow(8, levels - 1));
    DigitAtIs(morton, levels - 1);
  }

  /** When the query's loop stops (`divBy < 64`) it has passed the L-2 branch levels and
      `modBy` is 64, the bit count of a leaf word. */
  lemma LastScale(levels: nat, m: nat, e: nat, divBy: nat, modBy: nat)
    requires 3 <= levels && m <= levels - 2 && e == levels - 1 - m && divBy == Pow(8, e) && divBy < 64
    requires m > 0 ==> modBy == divBy * 8
    ensures m == levels - 2 && modBy == 64
  {
    Pow8AtLeast64(e);
  }
}
