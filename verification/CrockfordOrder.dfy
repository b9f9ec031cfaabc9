/** Encoding preserves order: texts compare as the bits they encode. */
module CrockfordOrder {
  import opened Bits
  import opened Crockford
  import Lex

  /** The first `p` bits agree and bit `p` is 0 in `a` and 1 in `b`. */
  ghost predicate DiffersAt(a: seq<Byte>, b: seq<Byte>, p: int) {
    && 0 <= p < 8 * |a| && p < 8 * |b|
    && (forall q | 0 <= q < p :: BitAt(a, q) == BitAt(b, q))
    && !BitAt(a, p) && BitAt(b, p)
  }

  ghost predicate PrefixLess(a: seq<Byte>, b: seq<Byte>, n: nat) {
    exists p :: p < n && DiffersAt(a, b, p)
  }

  lemma EncodedLess(a: seq<Byte>, b: seq<Byte>, n: nat, p: nat)
    requires |a| == |b| && p < n <= 8 * |a| && DiffersAt(a, b, p)
    ensures Lex.Less(Encoded(a, n), Encoded(b, n))
  {
    var s, t, i := Encoded(a, n), Encoded(b, n), p / 5;
    forall k | 0 <= k < i ensures s[k] == t[k] {
      assert Group(a, 5 * k, n) == Group(b, 5 * k, n);
    }
    assert s[..i] == t[..i];
    var g, h := Group(a, 5 * i, n), Group(b, 5 * i, n);
    assert g[..p % 5] == h[..p % 5];
    FirstBitDecides(g, h, p % 5);
    GroupBound(g);
    GroupBound(h);
    AlphabetIncreases(Value(g), Value(h));
    Lex.LessAt(s, t, i);
  }

  /** Either the first `n` bits agree, or one side is less at the first difference. */
  lemma Compare(a: seq<Byte>, b: seq<Byte>, n: nat)
    requires |a| == |b| && n <= 8 * |a|
    ensures Prefix(a, n) == Prefix(b, n) || PrefixLess(a, b, n) || PrefixLess(b, a, n)
    ensures Prefix(a, n) == Prefix(b, n) ==> !PrefixLess(a, b, n) && Encoded(a, n) == Encoded(b, n)
  {
    var x, y := Prefix(a, n), Prefix(b, n);
    var p := FirstDifference(x, y, 0);
    forall q | 0 <= q < p ensures BitAt(a, q) == BitAt(b, q) {
      assert x[..p][q] == y[..p][q];
    }
    if p < n {
      assert DiffersAt(a, b, p) || DiffersAt(b, a, p);
    } else {
      assert x == x[..n] == y[..n] == y;
    }
    if x == y {
      assert forall q | 0 <= q < n :: BitAt(a, q) == x[q] && BitAt(b, q) == y[q];
      forall i | 0 <= i < (n + 4) / 5 ensures CharAt(a, i, n) == CharAt(b, i, n) {
        assert Group(a, 5 * i, n) == Group(b, 5 * i, n);
      }
      assert Encoded(a, n) == Encoded(b, n);
    }
  }

  /** The texts of two bit prefixes compare exactly as the prefixes do. */
  lemma EncodedOrder(a: seq<Byte>, b: seq<Byte>, n: nat)
    requires |a| == |b| && n <= 8 * |a|
    ensures Lex.Less(Encoded(a, n), Encoded(b, n)) <==> PrefixLess(a, b, n)
    ensures Encoded(a, n) == Encoded(b, n) <==> Prefix(a, n) == Prefix(b, n)
  {
    Compare(a, b, n);
    Lex.Irreflexive(Encoded(a, n));
    if PrefixLess(a, b, n) {
      var p :| p < n && DiffersAt(a, b, p);
      EncodedLess(a, b, n, p);
      Compare(b, a, n);
    } else if PrefixLess(b, a, n) {
      var p :| p < n && DiffersAt(b, a, p);
      EncodedLess(b, a, n, p);
      Lex.Asymmetric(Encoded(b, n), Encoded(a, n));
      Compare(b, a, n);
    }
  }

  /** `bytes.Compare(a, b) < 0` for buffers of one length. */
  ghost predicate BytesLess(a: seq<Byte>, b: seq<Byte>) {
    exists j :: ByteDecides(a, b, j)
  }

  ghost predicate ByteDecides(a: seq<Byte>, b: seq<Byte>, j: int) {
    0 <= j < |a| && j < |b| && (forall i | 0 <= i < j :: a[i] == b[i]) && a[j] < b[j]
  }

  lemma SameByte(a: seq<Byte>, b: seq<Byte>, i: nat)
    requires i < |a| && i < |b|
    requires forall q | 8 * i <= q < 8 * i + 8 :: BitAt(a, q) == BitAt(b, q)
    ensures a[i] == b[i]
  {
    forall m | 0 <= m < 8 ensures BitsOf(a[i], 8)[m] == BitsOf(b[i], 8)[m] {
      assert BitAt(a, 8 * i + m) == BitAt(b, 8 * i + m);
    }
    ByteFromBits(a[i], b[i]);
  }

  lemma SmallerByte(a: seq<Byte>, b: seq<Byte>, p: nat)
    requires DiffersAt(a, b, p)
    ensures a[p / 8] < b[p / 8]
  {
    var j, k := p / 8, p % 8;
    var x, y := BitsOf(a[j], 8), BitsOf(b[j], 8);
    forall m | 0 <= m < k ensures x[m] == y[m] {
      assert BitAt(a, 8 * j + m) == BitAt(b, 8 * j + m);
    }
    FirstBitDecides(x, y, k);
    PowEight();
    ValueOfBits(a[j], 8);
    ValueOfBits(b[j], 8);
  }

  lemma BitDecidesByte(a: seq<Byte>, b: seq<Byte>, p: nat)
    requires |a| == |b| && DiffersAt(a, b, p)
    ensures BytesLess(a, b)
  {
    var j := p / 8;
    forall i | 0 <= i < j ensures a[i] == b[i] {
      SameByte(a, b, i);
    }
    SmallerByte(a, b, p);
    assert ByteDecides(a, b, j);
  }

  lemma BytesAsymmetric(a: seq<Byte>, b: seq<Byte>)
    requires BytesLess(b, a)
    ensures !BytesLess(a, b)
  {
    var j :| ByteDecides(b, a, j);
    assert forall i :: !ByteDecides(a, b, i);
  }

  lemma PrefixAsymmetric(a: seq<Byte>, b: seq<Byte>, n: nat)
    requires PrefixLess(a, b, n)
    ensures forall m: nat :: !PrefixLess(b, a, m)
  {
    var p :| p < n && DiffersAt(a, b, p);
    forall q ensures !DiffersAt(b, a, q) {
      if 0 <= q < p {
        assert BitAt(a, q) == BitAt(b, q);
      }
    }
  }

  lemma BytesOrder(a: seq<Byte>, b: seq<Byte>)
    requires |a| == |b|
    ensures BytesLess(a, b) <==> PrefixLess(a, b, 8 * |a|)
  {
    var n := 8 * |a|;
    Compare(a, b, n);
    if PrefixLess(a, b, n) {
      var p :| p < n && DiffersAt(a, b, p);
      BitDecidesByte(a, b, p);
    } else if PrefixLess(b, a, n) {
      var p :| p < n && DiffersAt(b, a, p);
      BitDecidesByte(b, a, p);
      BytesAsymmetric(a, b);
    } else {
      assert forall q | 0 <= q < n :: Prefix(a, n)[q] == Prefix(b, n)[q];
      SameBits(a, b);
    }
  }

  /** Over all bits the encoding is strictly monotone, in both directions. */
  lemma EncodeMonotone(a: seq<Byte>, b: seq<Byte>)
    requires |a| == |b|
    ensures Lex.Less(Encoded(a, 8 * |a|), Encoded(b, 8 * |b|)) <==> BytesLess(a, b)
  {
    EncodedOrder(a, b, 8 * |a|);
    BytesOrder(a, b);
  }

  /** Over a bit prefix it is monotone: a smaller buffer never gets the larger text. */
  lemma EncodePrefixMonotone(a: seq<Byte>, b: seq<Byte>, n: nat)
    requires |a| == |b| && n <= 8 * |a| && BytesLess(a, b)
    ensures Lex.Less(Encoded(a, n), Encoded(b, n)) || Encoded(a, n) == Encoded(b, n)
  {
    BytesOrder(a, b);
    PrefixAsymmetric(a, b, 8 * |a|);
    Compare(a, b, n);
    EncodedOrder(a, b, n);
  }

  /** A smaller number in the leading bits means a smaller text, however many more bits are encoded. */
  lemma LeadingBitsDecide(a: seq<Byte>, b: seq<Byte>, m: nat, n: nat)
    requires |a| == |b| && m <= n <= 8 * |a|
    requires Value(Prefix(a, m)) < Value(Prefix(b, m))
    ensures Lex.Less(Encoded(a, n), Encoded(b, n))
  {
    Compare(a, b, m);
    if PrefixLess(b, a, m) {
      var p :| p < m && DiffersAt(b, a, p);
      assert Prefix(b, m)[..p] == Prefix(a, m)[..p];
      FirstBitDecides(Prefix(b, m), Prefix(a, m), p);
    }
    var p :| p < m && DiffersAt(a, b, p);
    EncodedLess(a, b, n, p);
  }
}
