/**
 Numbers as bit sequences, most significant bit first. The codec's loops shift and mask
 bytes; here those operations are said on the bits themselves: which number a sequence of
 bits is, whether a number has a bit, and what setting one more bit does. The first place
 where two sequences differ decides which number is smaller.
 */
module Bits {

  function Pow2(k: nat): (p: nat)
    ensures p >= 1
  {
    if k == 0 then 1 else 2 * Pow2(k - 1)
  }

  function BitsOf(n: nat, w: nat): (b: seq<bool>)
    ensures |b| == w
  {
    if w == 0 then [] else BitsOf(n / 2, w - 1) + [n % 2 == 1]
  }

  function Value(b: seq<bool>): (n: nat) {
    if b == [] then 0 else 2 * Value(b[..|b| - 1]) + if b[|b| - 1] then 1 else 0
  }

  lemma {:induction false} ValueBound(b: seq<bool>)
    ensures Value(b) < Pow2(|b|)
  {
    if b == [] {
    } else {
      ValueBound(b[..|b| - 1]);
    }
  }

  lemma {:induction false} ValueOfBits(n: nat, w: nat)
    requires n < Pow2(w)
    ensures Value(BitsOf(n, w)) == n
  {
    if w == 0 {
    } else {
      ValueOfBits(n / 2, w - 1);
      assert BitsOf(n, w)[..w - 1] == BitsOf(n / 2, w - 1);
    }
  }

  lemma {:induction false} BitsOfValue(b: seq<bool>)
    ensures BitsOf(Value(b), |b|) == b
  {
    if b == [] {
    } else {
      BitsOfValue(b[..|b| - 1]);
      assert b == b[..|b| - 1] + [b[|b| - 1]];
    }
  }

  /** The first differing bit decides the order of the numbers. */
  lemma {:induction false} FirstBitDecides(x: seq<bool>, y: seq<bool>, p: nat)
    requires |x| == |y| && p < |x| && x[..p] == y[..p] && !x[p] && y[p]
    ensures Value(x) < Value(y)
  {
    var front := |x| - 1;
    if p == front {
      assert x[..front] == y[..front];
    } else {
      assert x[..front][..p] == x[..p] && y[..front][..p] == y[..p];
      FirstBitDecides(x[..front], y[..front], p);
    }
  }

  /** `n & (1 << k) != 0` */
  predicate TestBit(n: nat, k: nat) {
    n / Pow2(k) % 2 == 1
  }

  /** `n | (1 << k)` */
  function OrBit(n: nat, k: nat): nat {
    if TestBit(n, k) then n else n + Pow2(k)
  }

  lemma HalfDivide(n: nat, p: nat)
    requires p >= 1
    ensures n / 2 / p == n / (2 * p)
  {
    var q, r := n / (2 * p), n % (2 * p);
    assert n == 2 * p * q + r;
    assert n / 2 == p * q + r / 2 by {
      assert n == 2 * (p * q) + r;
    }
    assert r / 2 < p;
    QuotientUnique(n / 2, p, q, r / 2);
  }

  lemma MultipleGrows(p: nat, k: int)
    requires p >= 1
    ensures k >= 1 ==> p * k >= p
    ensures k <= -1 ==> p * k + p <= 0
  {
  }

  lemma QuotientUnique(n: nat, p: nat, q: nat, r: nat)
    requires n == p * q + r && r < p
    ensures n / p == q
  {
    var k := q - n / p;
    assert p * k == n % p - r;
    MultipleGrows(p, k);
  }

  lemma {:induction false} BitsTest(n: nat, w: nat, k: nat)
    requires k < w
    ensures BitsOf(n, w)[w - 1 - k] == TestBit(n, k)
  {
    if k == 0 {
    } else {
      BitsTest(n / 2, w - 1, k - 1);
      HalfDivide(n, Pow2(k - 1));
    }
  }

  lemma {:induction false} BitsOr(n: nat, w: nat, k: nat)
    requires k < w
    ensures BitsOf(OrBit(n, k), w) == BitsOf(n, w)[w - 1 - k := true]
  {
    BitsTest(n, w, k);
    if TestBit(n, k) {
    } else if k == 0 {
      assert OrBit(n, 0) == n + 1 && n % 2 == 0;
    } else {
      HalfDivide(n, Pow2(k - 1));
      var half := n / 2;
      BitsOr(half, w - 1, k - 1);
      assert OrBit(n, k) == n + 2 * Pow2(k - 1);
      assert OrBit(n, k) / 2 == half + Pow2(k - 1) == OrBit(half, k - 1);
      assert OrBit(n, k) % 2 == n % 2;
      assert BitsOf(n, w) == BitsOf(half, w - 1) + [n % 2 == 1];
    }
  }

  lemma {:induction false} OrBound(n: nat, w: nat, k: nat)
    requires n < Pow2(w) && k < w
    ensures OrBit(n, k) < Pow2(w)
    decreases w
  {
    var half, top := n / 2, Pow2(w - 1);
    assert Pow2(w) == 2 * top;
    if !TestBit(n, k) && k > 0 {
      var p := Pow2(k - 1);
      HalfDivide(n, p);
      OrBound(half, w - 1, k - 1);
      assert half + p < top;
    }
  }

  /** The first position where two equally long bit sequences differ, if any. */
  function FirstDifference(x: seq<bool>, y: seq<bool>, i: nat): (p: nat)
    requires |x| == |y| && i <= |x| && x[..i] == y[..i]
    ensures i <= p <= |x| && x[..p] == y[..p] && (p < |x| ==> x[p] != y[p])
    decreases |x| - i
  {
    if i == |x| || x[i] != y[i] then i
    else
      assert x[..i + 1] == x[..i] + [x[i]] && y[..i + 1] == y[..i] + [y[i]];
      FirstDifference(x, y, i + 1)
  }
}
