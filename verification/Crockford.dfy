/**
 Crockford Base32: five bits to a character, most significant bit first. The encoder
 and decoder work on byte buffers in place; `EncodeBits` and `Decode` are the functions
 they compute, about which the round trips and the order preservation are proved.
 */
module Crockford {
  import opened Bits

  type Byte = x: int | 0 <= x < 256

  const ALPHABET := "0123456789ABCDEFGHJKMNPQRSTVWXYZ"

  /******* Symbols *******/

  function Upper(c: char): char {
    if 'a' <= c <= 'z' then (c as int - 32) as char else c
  }

  /** The value a character decodes to, or -1: case is ignored, I and L read as 1, O as 0. */
  function Symbol(c: char): (v: int)
    ensures -1 <= v < 32
  {
    var u := Upper(c);
    if '0' <= u <= '9' then u as int - '0' as int
    else if 'A' <= u <= 'H' then u as int - 'A' as int + 10
    else if u == 'I' || u == 'L' then 1
    else if 'J' <= u <= 'K' then u as int - 'J' as int + 18
    else if 'M' <= u <= 'N' then u as int - 'M' as int + 20
    else if u == 'O' then 0
    else if 'P' <= u <= 'T' then u as int - 'P' as int + 22
    else if 'V' <= u <= 'Z' then u as int - 'V' as int + 27
    else -1
  }

  lemma AlphabetSymbols(v: nat)
    requires v < 32
    ensures Symbol(ALPHABET[v]) == v && Upper(ALPHABET[v]) == ALPHABET[v] && ALPHABET[v] != '-'
    ensures ALPHABET[v] !in {'I', 'L', 'O', 'U'}
  {
  }

  lemma AlphabetIncreases(v: nat, w: nat)
    requires v < w < 32
    ensures ALPHABET[v] < ALPHABET[w]
  {
  }

  /******* Bit streams *******/

  function BitAt(src: seq<Byte>, p: nat): bool
    requires p < 8 * |src|
  {
    BitsOf(src[p / 8], 8)[p % 8]
  }

  function Prefix(src: seq<Byte>, n: nat): (b: seq<bool>)
    requires n <= 8 * |src|
    ensures |b| == n && forall p | 0 <= p < n :: b[p] == BitAt(src, p)
  {
    seq(n, p requires 0 <= p < n => BitAt(src, p))
  }

  /** Five bits from `offset`; bits from `limit` on read as zero. */
  function Group(src: seq<Byte>, offset: nat, limit: nat): (b: seq<bool>)
    requires limit <= 8 * |src|
    ensures |b| == 5
  {
    seq(5, k requires 0 <= k < 5 => offset + k < limit && BitAt(src, offset + k))
  }

  function CharAt(src: seq<Byte>, i: nat, n: nat): char
    requires n <= 8 * |src|
  {
    GroupBound(Group(src, 5 * i, n));
    ALPHABET[Value(Group(src, 5 * i, n))]
  }

  lemma GroupBound(b: seq<bool>)
    requires |b| == 5
    ensures Value(b) < 32
  {
    ValueBound(b);
    assert Pow2(5) == 2 * Pow2(4) && Pow2(4) == 2 * Pow2(3) && Pow2(3) == 2 * Pow2(2);
  }

  /** The encoding of the first `n` bits. */
  function Encoded(src: seq<Byte>, n: nat): (s: string)
    requires n <= 8 * |src|
    ensures |s| == (n + 4) / 5
    ensures forall i | 0 <= i < |s| :: s[i] == CharAt(src, i, n)
  {
    seq((n + 4) / 5, i requires 0 <= i < (n + 4) / 5 => CharAt(src, i, n))
  }

  /** Hyphens are separators. */
  function Strip(s: string): (t: string)
    ensures '-' !in t
  {
    if s == "" then ""
    else (if s[0] == '-' then "" else [s[0]]) + Strip(s[1..])
  }

  predicate AllSymbols(t: string) {
    forall i | 0 <= i < |t| :: Symbol(t[i]) >= 0
  }

  /** The first character at or after `i` that is no symbol. */
  function FirstInvalid(t: string, i: nat): (k: nat)
    requires !AllSymbols(t) && i <= |t| && forall j | 0 <= j < i :: Symbol(t[j]) >= 0
    ensures k < |t| && Symbol(t[k]) < 0 && forall j | 0 <= j < k :: Symbol(t[j]) >= 0
    decreases |t| - i
  {
    if Symbol(t[i]) < 0 then i else FirstInvalid(t, i + 1)
  }

  /** Bit `p` of the stream a text of symbols spells. */
  function SpelledBit(t: string, p: nat): bool
    requires AllSymbols(t) && p < 5 * |t|
  {
    BitsOf(Symbol(t[p / 5]), 5)[p % 5]
  }

  function SpelledByte(t: string, j: nat): Byte
    requires AllSymbols(t)
  {
    var b := seq(8, k requires 0 <= k < 8 => 8 * j + k < 5 * |t| && SpelledBit(t, 8 * j + k));
    ByteBound(b);
    Value(b)
  }

  lemma ByteBound(b: seq<bool>)
    requires |b| == 8
    ensures Value(b) < 256
  {
    ValueBound(b);
    assert Pow2(8) == 8 * Pow2(5) && Pow2(5) == 8 * Pow2(2) by {
      assert Pow2(8) == 2 * Pow2(7) && Pow2(7) == 2 * Pow2(6) && Pow2(6) == 2 * Pow2(5);
      assert Pow2(5) == 2 * Pow2(4) && Pow2(4) == 2 * Pow2(3) && Pow2(3) == 2 * Pow2(2);
    }
  }

  datatype DecodeResult = Decoded(bytes: seq<Byte>) | Invalid(position: nat)

  function Decode(s: string): DecodeResult {
    var t := Strip(s);
    if AllSymbols(t)
    then Decoded(seq((5 * |t| + 7) / 8, j requires 0 <= j < (5 * |t| + 7) / 8 => SpelledByte(t, j)))
    else Invalid(FirstInvalid(t, 0))
  }

  lemma DecodedBit(t: string, out: seq<Byte>, p: nat)
    requires AllSymbols(t) && p < 8 * |out|
    requires forall j | 0 <= j < |out| :: out[j] == SpelledByte(t, j)
    ensures BitAt(out, p) == (p < 5 * |t| && SpelledBit(t, p))
  {
    var j := p / 8;
    var b := seq(8, k requires 0 <= k < 8 => 8 * j + k < 5 * |t| && SpelledBit(t, 8 * j + k));
    BitsOfValue(b);
    assert out[j] == Value(b);
  }

  lemma ByteFromBits(x: Byte, y: Byte)
    requires BitsOf(x, 8) == BitsOf(y, 8)
    ensures x == y
  {
    ByteBound(BitsOf(x, 8));
    assert Pow2(8) == 256 by { PowEight(); }
    ValueOfBits(x, 8);
    ValueOfBits(y, 8);
  }

  lemma PowEight()
    ensures Pow2(8) == 256 && Pow2(5) == 32
  {
    assert Pow2(8) == 2 * Pow2(7) && Pow2(7) == 2 * Pow2(6) && Pow2(6) == 2 * Pow2(5);
    assert Pow2(5) == 2 * Pow2(4) && Pow2(4) == 2 * Pow2(3) && Pow2(3) == 2 * Pow2(2);
  }

  /** Byte buffers with the same bits are the same. */
  lemma SameBits(a: seq<Byte>, b: seq<Byte>)
    requires |a| == |b| && forall p | 0 <= p < 8 * |a| :: BitAt(a, p) == BitAt(b, p)
    ensures a == b
  {
    forall j | 0 <= j < |a| ensures a[j] == b[j] {
      forall k | 0 <= k < 8 ensures BitsOf(a[j], 8)[k] == BitsOf(b[j], 8)[k] {
        assert BitAt(a, 8 * j + k) == BitAt(b, 8 * j + k);
      }
      ByteFromBits(a[j], b[j]);
    }
  }

  /******* Round trips *******/

  lemma {:induction false} StripNothing(t: string)
    requires '-' !in t
    ensures Strip(t) == t
  {
    if t == "" {
    } else {
      assert t[0] in t && forall c | c in t[1..] :: c in t;
      StripNothing(t[1..]);
    }
  }

  lemma EncodedSymbols(src: seq<Byte>, n: nat)
    requires n <= 8 * |src|
    ensures AllSymbols(Encoded(src, n)) && Strip(Encoded(src, n)) == Encoded(src, n)
    ensures forall i | 0 <= i < |Encoded(src, n)| :: Symbol(Encoded(src, n)[i]) == Value(Group(src, 5 * i, n))
  {
    var s := Encoded(src, n);
    forall i | 0 <= i < |s| ensures Symbol(s[i]) == Value(Group(src, 5 * i, n)) && s[i] != '-' {
      GroupBound(Group(src, 5 * i, n));
      AlphabetSymbols(Value(Group(src, 5 * i, n)));
    }
    StripNothing(s);
  }

  lemma SpelledFrom(t: string, p: nat, g: seq<bool>)
    requires AllSymbols(t) && p < 5 * |t| && |g| == 5 && Symbol(t[p / 5]) == Value(g)
    ensures SpelledBit(t, p) == g[p % 5]
  {
    BitsOfValue(g);
  }

  lemma GroupBit(src: seq<Byte>, n: nat, p: nat)
    requires n <= 8 * |src|
    ensures Group(src, 5 * (p / 5), n)[p % 5] == (p < n && BitAt(src, p))
  {
    assert 5 * (p / 5) + p % 5 == p;
  }

  /** Decoding an encoded bit prefix gives its bits, followed only by zeros. */
  lemma DecodeOfEncode(src: seq<Byte>, n: nat)
    requires n <= 8 * |src|
    ensures var r := Decode(Encoded(src, n));
            && r.Decoded?
            && |r.bytes| == (5 * ((n + 4) / 5) + 7) / 8
            && forall p | 0 <= p < 8 * |r.bytes| :: BitAt(r.bytes, p) == (p < n && BitAt(src, p))
  {
    EncodedSymbols(src, n);
    var s, out := Encoded(src, n), Decode(Encoded(src, n)).bytes;
    forall p | 0 <= p < 8 * |out| ensures BitAt(out, p) == (p < n && BitAt(src, p)) {
      DecodedBit(s, out, p);
      if p < 5 * |s| {
        SpelledFrom(s, p, Group(src, 5 * (p / 5), n));
        GroupBit(src, n, p);
      }
    }
  }

  lemma AllZero(x: Byte)
    requires forall k | 0 <= k < 8 :: !BitsOf(x, 8)[k]
    ensures x == 0
  {
    ZeroBits(8);
    assert BitsOf(x, 8) == BitsOf(0, 8);
    ByteFromBits(x, 0);
  }

  /** Whole bytes come back as they were, with only zero bytes after them. */
  lemma DecodeOfEncodedBytes(src: seq<Byte>)
    ensures var r := Decode(Encoded(src, 8 * |src|));
            && r.Decoded? && |src| <= |r.bytes| && r.bytes[..|src|] == src
            && forall j | |src| <= j < |r.bytes| :: r.bytes[j] == 0
  {
    DecodeOfEncode(src, 8 * |src|);
    BitsThenZeros(src, Decode(Encoded(src, 8 * |src|)).bytes);
  }

  lemma BitsThenZeros(src: seq<Byte>, out: seq<Byte>)
    requires |src| <= |out| && forall p | 0 <= p < 8 * |out| :: BitAt(out, p) == (p < 8 * |src| && BitAt(src, p))
    ensures out[..|src|] == src && forall j | |src| <= j < |out| :: out[j] == 0
  {
    var head := out[..|src|];
    forall p | 0 <= p < 8 * |src| ensures BitAt(head, p) == BitAt(src, p) {
      assert BitAt(out, p) == BitAt(src, p);
    }
    SameBits(head, src);
    forall j | |src| <= j < |out| ensures out[j] == 0 {
      forall k | 0 <= k < 8 ensures !BitsOf(out[j], 8)[k] {
        assert !BitAt(out, 8 * j + k);
      }
      AllZero(out[j]);
    }
  }

  lemma {:induction false} ZeroBits(w: nat)
    ensures forall k | 0 <= k < w :: !BitsOf(0, w)[k]
  {
    if w == 0 {
    } else {
      ZeroBits(w - 1);
    }
  }

  /** The canonical spelling: no hyphens, upper case, no confusables. */
  function Canonical(s: string): (t: string)
    requires AllSymbols(Strip(s))
    ensures |t| == |Strip(s)|
  {
    var u := Strip(s);
    seq(|u|, i requires 0 <= i < |u| => ALPHABET[Symbol(u[i])])
  }

  lemma BitOfDecoded(t: string, out: seq<Byte>, i: nat, k: nat)
    requires AllSymbols(t) && i < |t| && k < 5 && 5 * |t| <= 8 * |out|
    requires forall j | 0 <= j < |out| :: out[j] == SpelledByte(t, j)
    ensures BitAt(out, 5 * i + k) == BitsOf(Symbol(t[i]), 5)[k]
  {
    var p := 5 * i + k;
    assert p / 5 == i && p % 5 == k;
    DecodedBit(t, out, p);
  }

  lemma GroupOfDecoded(t: string, out: seq<Byte>, i: nat)
    requires AllSymbols(t) && i < |t| && 5 * |t| <= 8 * |out|
    requires forall j | 0 <= j < |out| :: out[j] == SpelledByte(t, j)
    ensures Value(Group(out, 5 * i, 5 * |t|)) == Symbol(t[i])
  {
    var g := Group(out, 5 * i, 5 * |t|);
    forall k | 0 <= k < 5 ensures g[k] == BitsOf(Symbol(t[i]), 5)[k] {
      BitOfDecoded(t, out, i, k);
    }
    assert g == BitsOf(Symbol(t[i]), 5);
    PowEight();
    ValueOfBits(Symbol(t[i]), 5);
  }

  /** Encoding what was decoded gives the canonical spelling back. */
  lemma EncodeOfDecode(s: string)
    requires Decode(s).Decoded?
    ensures 5 * |Strip(s)| <= 8 * |Decode(s).bytes|
    ensures Encoded(Decode(s).bytes, 5 * |Strip(s)|) == Canonical(s)
  {
    var t, out := Strip(s), Decode(s).bytes;
    var e := Encoded(out, 5 * |t|);
    forall i | 0 <= i < |t| ensures e[i] == Canonical(s)[i] {
      GroupOfDecoded(t, out, i);
    }
  }

  lemma SpelledAlike(a: string, b: string, j: nat)
    requires AllSymbols(a) && AllSymbols(b) && |a| == |b|
    requires forall i | 0 <= i < |a| :: Symbol(a[i]) == Symbol(b[i])
    ensures SpelledByte(a, j) == SpelledByte(b, j)
  {
    var x := seq(8, k requires 0 <= k < 8 => 8 * j + k < 5 * |a| && SpelledBit(a, 8 * j + k));
    var y := seq(8, k requires 0 <= k < 8 => 8 * j + k < 5 * |b| && SpelledBit(b, 8 * j + k));
    forall k | 0 <= k < 8 ensures x[k] == y[k] {
      var p := 8 * j + k;
      if p < 5 * |a| {
        assert Symbol(a[p / 5]) == Symbol(b[p / 5]);
        assert SpelledBit(a, p) == SpelledBit(b, p);
      }
    }
    assert x == y;
  }

  /** Two texts decode alike when, hyphens aside, they spell the same symbols. */
  lemma SameSymbolsDecodeAlike(s: string, t: string)
    requires |Strip(s)| == |Strip(t)|
    requires forall i | 0 <= i < |Strip(s)| :: Symbol(Strip(s)[i]) == Symbol(Strip(t)[i])
    ensures Decode(s) == Decode(t)
  {
    var a, b := Strip(s), Strip(t);
    if AllSymbols(a) {
      assert AllSymbols(b);
      forall j | 0 <= j < (5 * |a| + 7) / 8 ensures SpelledByte(a, j) == SpelledByte(b, j) {
        SpelledAlike(a, b, j);
      }
      assert Decode(s).bytes == Decode(t).bytes;
    } else {
      var i, k := FirstInvalid(a, 0), FirstInvalid(b, 0);
      assert i == k;
    }
  }

  /** Hyphens may be put anywhere. */
  lemma {:induction false} HyphensIgnored(s: string, i: nat)
    requires i <= |s|
    ensures Decode(s[..i] + "-" + s[i..]) == Decode(s)
  {
    StripHyphen(s, i);
  }

  lemma {:induction false} StripHyphen(s: string, i: nat)
    requires i <= |s|
    ensures Strip(s[..i] + "-" + s[i..]) == Strip(s)
  {
    var h := s[..i] + "-" + s[i..];
    if i == 0 {
      assert h[1..] == s;
    } else {
      assert h[1..] == s[1..][..i - 1] + "-" + s[1..][i - 1..];
      StripHyphen(s[1..], i - 1);
    }
  }

  /** The readings a person may put in place of a character. */
  predicate Confusable(c: char, d: char) {
    || Upper(c) == Upper(d)
    || (Upper(c) in {'I', 'L', '1'} && Upper(d) in {'I', 'L', '1'})
    || (Upper(c) in {'O', '0'} && Upper(d) in {'O', '0'})
  }

  /** Changing case or writing a confusable does not change what is decoded. */
  lemma ConfusablesDecodeAlike(s: string, t: string)
    requires |s| == |t| && forall i | 0 <= i < |s| :: Confusable(s[i], t[i])
    ensures Decode(s) == Decode(t)
  {
    StripConfusable(s, t);
    SameSymbolsDecodeAlike(s, t);
  }

  lemma {:induction false} StripConfusable(s: string, t: string)
    requires |s| == |t| && forall i | 0 <= i < |s| :: Confusable(s[i], t[i])
    ensures |Strip(s)| == |Strip(t)|
    ensures forall i | 0 <= i < |Strip(s)| :: Symbol(Strip(s)[i]) == Symbol(Strip(t)[i])
  {
    if s == "" {
    } else {
      assert Confusable(s[0], t[0]);
      StripConfusable(s[1..], t[1..]);
    }
  }

  /** Valid texts decode to the same bytes exactly when they spell the same, given the same length. */
  lemma DecodeInjective(s: string, t: string)
    requires Decode(s).Decoded? && Decode(t).Decoded?
    ensures Canonical(s) == Canonical(t) <==> |Strip(s)| == |Strip(t)| && Decode(s) == Decode(t)
  {
    EncodeOfDecode(s);
    EncodeOfDecode(t);
    if Canonical(s) == Canonical(t) {
      forall i | 0 <= i < |Strip(s)| ensures Symbol(Strip(s)[i]) == Symbol(Strip(t)[i]) {
        assert Canonical(s)[i] == Canonical(t)[i];
        AlphabetSymbols(Symbol(Strip(s)[i]));
        AlphabetSymbols(Symbol(Strip(t)[i]));
      }
      SameSymbolsDecodeAlike(s, t);
    }
  }
}
