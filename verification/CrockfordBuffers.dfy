/** The encoder and decoder as they run: loops over byte buffers, setting bits in place. */
module CrockfordBuffers {
  import opened Payload
  import opened Bits
  import opened Crockford

  /** The first `b` bits of `val` are those of `group`, and the rest are still zero. */
  ghost predicate Packed(val: nat, group: seq<bool>, b: nat)
    requires |group| == 5
  {
    val < 32 && forall k | 0 <= k < 5 :: BitsOf(val, 5)[k] == (k < b && group[k])
  }

  lemma PackOne(val: nat, group: seq<bool>, b: nat)
    requires |group| == 5 && b < 5 && Packed(val, group, b)
    ensures Packed(if group[b] then OrBit(val, 4 - b) else val, group, b + 1)
  {
    PowEight();
    if group[b] {
      var x, y := BitsOf(val, 5), BitsOf(OrBit(val, 4 - b), 5);
      OrBound(val, 5, 4 - b);
      assert y == x[b := true] by {
        BitsOr(val, 5, 4 - b);
      }
    }
  }

  lemma PackedAll(val: nat, group: seq<bool>, b: nat)
    requires |group| == 5 && Packed(val, group, b) && forall k | b <= k < 5 :: !group[k]
    ensures val == Value(group)
  {
    PowEight();
    assert BitsOf(val, 5) == group;
    ValueOfBits(val, 5);
  }

  lemma TestedBit(src: seq<Byte>, p: nat)
    requires p < 8 * |src|
    ensures TestBit(src[p / 8], 7 - p % 8) == BitAt(src, p)
  {
    BitsTest(src[p / 8], 8, 7 - p % 8);
  }

  /** Up to five bits from `bitOffset`, packed most significant first. */
  method ExtractBits(src: array<Byte>, bitOffset: nat, maxBits: nat) returns (val: nat)
    requires maxBits <= 8 * src.Length
    ensures val == Value(Group(src[..], bitOffset, maxBits)) && val < 32
  {
    val := 0;
    var b := 0;
    ghost var group := Group(src[..], bitOffset, maxBits);
    ZeroBits(5);
    while b < 5
      invariant 0 <= b <= 5
      invariant Packed(val, group, b)
    {
      var bitPos := bitOffset + b;
      if bitPos >= maxBits {
        break;
      }
      TestedBit(src[..], bitPos);
      PackOne(val, group, b);
      if TestBit(src[bitPos / 8], 7 - bitPos % 8) {
        val := OrBit(val, 4 - b);
      }
      b := b + 1;
    }
    PackedAll(val, group, b);
  }

  method EncodeBits(src: array<Byte>, nBits: nat) returns (r: Option<string>)
    ensures r == if nBits > 8 * src.Length then None else Some(Encoded(src[..], nBits))
  {
    if nBits > src.Length * 8 {
      return None;
    }
    var nChars := (nBits + 4) / 5;
    var buf := new char[nChars];
    for i := 0 to nChars
      invariant forall k | 0 <= k < i :: buf[k] == CharAt(src[..], k, nBits)
    {
      var val := ExtractBits(src, i * 5, nBits);
      buf[i] := ALPHABET[val];
    }
    assert buf[..] == Encoded(src[..], nBits);
    return Some(buf[..]);
  }

  /** What the table holds for `c` once the first `i` alphabet characters are in it. */
  ghost function Tabled(c: char, i: nat): int {
    if Upper(c) !in {'I', 'L', 'O'} && 0 <= Symbol(c) < i then Symbol(c) else -1
  }

  ghost predicate EntryHolds(m: seq<int>, c: char, i: nat) {
    c as int < |m| ==> m[c as int] == Tabled(c, i)
  }

  ghost predicate TableHolds(m: seq<int>, i: nat) {
    |m| == 256 && forall c: char :: EntryHolds(m, c, i)
  }

  lemma TableStep(was: seq<int>, m: seq<int>, i: nat)
    requires i < 32 && TableHolds(was, i)
    requires ALPHABET[i] as int < 256 && LowerCode(ALPHABET[i]) < 256
    requires m == was[ALPHABET[i] as int := i][LowerCode(ALPHABET[i]) := i]
    ensures TableHolds(m, i + 1)
  {
    TabledStep(i);
    var n := i + 1;
    forall d: char ensures EntryHolds(m, d, n) {
      assert EntryHolds(was, d, i);
      if d as int == ALPHABET[i] as int {
        assert d == ALPHABET[i];
      }
    }
  }

  /** The 256 entries give every byte its value as a symbol. */
  ghost predicate IsDecodeMap(m: seq<int>) {
    |m| == 256 && forall c: char | c as int < 256 :: m[c as int] == Symbol(c)
  }

  lemma TableDone(was: seq<int>, m: seq<int>)
    requires TableHolds(was, 32)
    requires m == was['I' as int := 1]['i' as int := 1]['L' as int := 1]['l' as int := 1]['O' as int := 0]['o' as int := 0]
    ensures IsDecodeMap(m)
  {
    TabledAll();
    forall c: char | c as int < 256 ensures m[c as int] == Symbol(c) {
      assert EntryHolds(was, c, 32);
      assert Confused(c) < 0 ==> m[c as int] == was[c as int];
    }
  }

  /** The table built before first use: every character to its value, or -1. */
  method InitDecodeMap() returns (m: array<int>)
    ensures fresh(m) && IsDecodeMap(m[..])
  {
    m := new int[256](_ => -1);
    for i := 0 to 32
      invariant TableHolds(m[..], i)
    {
      var c := ALPHABET[i];
      TabledStep(i);
      ghost var was := m[..];
      m[c as int] := i;
      m[LowerCode(c)] := i;
      TableStep(was, m[..], i);
    }
    ghost var was := m[..];
    m['I' as int], m['i' as int], m['L' as int], m['l' as int] := 1, 1, 1, 1;
    m['O' as int], m['o' as int] := 0, 0;
    TableDone(was, m[..]);
  }

  ghost function Confused(c: char): int {
    if c in {'I', 'i', 'L', 'l'} then 1 else if c in {'O', 'o'} then 0 else -1
  }

  lemma TabledAll()
    ensures forall c: char | c as int < 256 ::
              Symbol(c) == if Confused(c) >= 0 then Confused(c) else Tabled(c, 32)
  {
  }

  function LowerCode(c: char): nat {
    if 'A' <= c <= 'Z' then c as int + 32 else c as int
  }

  /** Only the two cases of an alphabet character have its value without being confusables. */
  lemma LetterUnique(d: char, i: nat)
    requires i < 32
    ensures Upper(d) !in {'I', 'L', 'O'} && Symbol(d) == i <==> d == ALPHABET[i] || d as int == LowerCode(ALPHABET[i])
  {
    AlphabetSymbols(i);
    var c := ALPHABET[i];
    assert Upper(d) == c <==> d == c || d as int == LowerCode(c);
    if Upper(d) !in {'I', 'L', 'O'} && Symbol(d) == i {
      SymbolUnique(Upper(d), c);
    }
  }

  lemma SymbolUnique(d: char, c: char)
    requires Upper(d) == d && Upper(c) == c && d !in {'I', 'L', 'O'} && c !in {'I', 'L', 'O'}
    requires Symbol(d) == Symbol(c) >= 0
    ensures d == c
  {
  }

  lemma TabledStep(i: nat)
    requires i < 32
    ensures ALPHABET[i] as int < 128 && LowerCode(ALPHABET[i]) < 128
    ensures forall d: char ::
              Tabled(d, i + 1) == if d == ALPHABET[i] || d as int == LowerCode(ALPHABET[i]) then i else Tabled(d, i)
  {
    forall d: char
      ensures Tabled(d, i + 1) == if d == ALPHABET[i] || d as int == LowerCode(ALPHABET[i]) then i else Tabled(d, i)
    {
      LetterUnique(d, i);
    }
    AlphabetSymbols(i);
  }

  /** ORs five bits into the buffer; the bits past its end are dropped. */
  method SetBits(dst: array<Byte>, bitOffset: nat, val: nat)
    requires val < 32
    modifies dst
    ensures forall p | 0 <= p < 8 * dst.Length ::
              BitAt(dst[..], p) == (old(BitAt(dst[..], p)) || (bitOffset <= p < bitOffset + 5 && BitsOf(val, 5)[p - bitOffset]))
  {
    var b := 0;
    PowEight();
    while b < 5
      invariant 0 <= b <= 5
      invariant forall p | 0 <= p < 8 * dst.Length ::
                  BitAt(dst[..], p) == (old(BitAt(dst[..], p)) || (bitOffset <= p < bitOffset + b && BitsOf(val, 5)[p - bitOffset]))
    {
      var bitPos := bitOffset + b;
      var byteIdx := bitPos / 8;
      if byteIdx >= dst.Length {
        break;
      }
      var bitIdx := 7 - bitPos % 8;
      BitsTest(val, 5, 4 - b);
      if TestBit(val, 4 - b) {
        ghost var was := dst[..];
        OrBound(dst[byteIdx], 8, bitIdx);
        BitsOr(dst[byteIdx], 8, bitIdx);
        dst[byteIdx] := OrBit(dst[byteIdx], bitIdx);
        forall p | 0 <= p < 8 * dst.Length ensures BitAt(dst[..], p) == (BitAt(was, p) || p == bitPos) {
          assert p / 8 != byteIdx ==> dst[..][p / 8] == was[p / 8];
        }
      }
      b := b + 1;
    }
  }

  lemma SpelledStep(t: string, i: nat, p: nat)
    requires i < |t| && AllSymbols(t[..i + 1])
    ensures AllSymbols(t[..i])
    ensures p < 5 * i ==> SpelledBit(t[..i + 1], p) == SpelledBit(t[..i], p)
    ensures 5 * i <= p < 5 * i + 5 ==> SpelledBit(t[..i + 1], p) == BitsOf(Symbol(t[i]), 5)[p - i * 5]
  {
    assert forall k | 0 <= k < i :: t[..i][k] == t[..i + 1][k];
    assert 5 * i <= p < 5 * i + 5 ==> p / 5 == i && p % 5 == p - i * 5;
  }

  /** The buffer holds the bits of the first `i` symbols, and zeros after them. */
  ghost predicate Holds(out: seq<Byte>, t: string, i: nat) {
    && i <= |t| && AllSymbols(t[..i])
    && forall p | 0 <= p < 8 * |out| :: BitAt(out, p) == (p < 5 * i && SpelledBit(t[..i], p))
  }

  lemma HoldsStep(was: seq<Byte>, out: seq<Byte>, t: string, i: nat)
    requires Holds(was, t, i) && |out| == |was| && i < |t| && Symbol(t[i]) >= 0
    requires forall p | 0 <= p < 8 * |out| ::
               BitAt(out, p) == (BitAt(was, p) || (i * 5 <= p < i * 5 + 5 && BitsOf(Symbol(t[i]), 5)[p - i * 5]))
    ensures Holds(out, t, i + 1)
  {
    assert t[..i + 1] == t[..i] + [t[i]];
    assert AllSymbols(t[..i + 1]);
    forall p | 0 <= p < 8 * |out| ensures BitAt(out, p) == (p < 5 * (i + 1) && SpelledBit(t[..i + 1], p)) {
      SpelledStep(t, i, p);
    }
  }

  lemma HoldsNone(out: seq<Byte>, t: string)
    requires forall j | 0 <= j < |out| :: out[j] == 0
    ensures Holds(out, t, 0)
  {
    ZeroBits(8);
  }

  lemma InvalidAt(s: string, i: nat)
    requires i < |Strip(s)| && AllSymbols(Strip(s)[..i]) && Symbol(Strip(s)[i]) < 0
    ensures Decode(s) == Invalid(i)
  {
    var t := Strip(s);
    assert forall k | 0 <= k < i :: t[..i][k] == t[k];
  }

  lemma HoldsAll(out: seq<Byte>, s: string)
    requires Holds(out, Strip(s), |Strip(s)|) && |out| == (5 * |Strip(s)| + 7) / 8
    ensures Decode(s) == Decoded(out)
  {
    var t := Strip(s);
    assert t[..|t|] == t;
    var spec := Decode(s).bytes;
    forall p | 0 <= p < 8 * |out| ensures BitAt(out, p) == BitAt(spec, p) {
      DecodedBit(t, spec, p);
    }
    SameBits(out, spec);
  }

  method SymbolValue(decodeMap: array<int>, c: char) returns (val: int)
    requires IsDecodeMap(decodeMap[..])
    ensures val == Symbol(c)
  {
    val := if c as int < 256 then decodeMap[c as int] else -1;
    assert c as int < 256 ==> val == decodeMap[..][c as int];
  }

  method PutSymbol(out: array<Byte>, t: string, i: nat, val: nat)
    requires Holds(out[..], t, i) && i < |t| && val == Symbol(t[i])
    modifies out
    ensures Holds(out[..], t, i + 1)
  {
    ghost var was := out[..];
    SetBits(out, i * 5, val);
    HoldsStep(was, out[..], t, i);
  }

  /** The invalid byte reported is the first one, counted without hyphens. */
  method DecodeText(decodeMap: array<int>, s: string) returns (r: DecodeResult)
    requires IsDecodeMap(decodeMap[..])
    ensures r == Decode(s)
  {
    var t := Strip(s);
    var out := new Byte[(5 * |t| + 7) / 8](_ => 0);
    HoldsNone(out[..], t);
    var i := 0;
    while i < |t|
      invariant 0 <= i <= |t|
      invariant Holds(out[..], t, i)
    {
      var val := SymbolValue(decodeMap, t[i]);
      if val < 0 {
        InvalidAt(s, i);
        return Invalid(i);
      }
      PutSymbol(out, t, i, val);
      i := i + 1;
    }
    HoldsAll(out[..], s);
    return Decoded(out[..]);
  }
}
