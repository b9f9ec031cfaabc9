/**
 UTF-8 as Go decodes it (section 4 of RFC 3629): the size of the character at the front of
 a byte string, and the repair that encoding as JSON makes of what is not UTF-8. A string
 holds one byte per character here. Its texts are the labels of permission suggestions,
 which are cut by bytes before they are encoded.
 */
module Utf8 {

  predicate Between(c: char, lo: int, hi: int) {
    lo <= c as int <= hi
  }

  predicate Continuation(c: char) {
    Between(c, 0x80, 0xBF)
  }

  /** The second byte narrows with the first, against overlong forms and surrogates. */
  predicate Second(lead: char, c: char) {
    && Continuation(c)
    && (lead as int == 0xE0 ==> Between(c, 0xA0, 0xBF))
    && (lead as int == 0xED ==> Between(c, 0x80, 0x9F))
    && (lead as int == 0xF0 ==> Between(c, 0x90, 0xBF))
    && (lead as int == 0xF4 ==> Between(c, 0x80, 0x8F))
  }

  /** Bytes in the character that `lead` begins; 0 if none begins with it. */
  function Length(lead: char): (n: nat)
    ensures n <= 4
  {
    if Between(lead, 0, 0x7F) then 1
    else if Between(lead, 0xC2, 0xDF) then 2
    else if Between(lead, 0xE0, 0xEF) then 3
    else if Between(lead, 0xF0, 0xF4) then 4
    else 0
  }

  /** Size of the character at the front, or 0 when the front is not UTF-8. */
  function RuneSize(s: string): (n: nat)
    ensures n <= |s|
  {
    if s == "" then 0
    else
      var n := Length(s[0]);
      if n > |s| then 0
      else if n >= 2 && !Second(s[0], s[1]) then 0
      else if n >= 3 && !Continuation(s[2]) then 0
      else if n >= 4 && !Continuation(s[3]) then 0
      else n
  }

  predicate Valid(s: string) {
    s == "" || (RuneSize(s) > 0 && Valid(s[RuneSize(s)..]))
  }

  /** U+FFFD */
  const REPLACEMENT: string := ['\U{EF}', '\U{BF}', '\U{BD}']

  /** Every byte that begins no character is replaced. */
  function Repaired(s: string): (r: string)
  {
    if s == "" then ""
    else if RuneSize(s) == 0 then REPLACEMENT + Repaired(s[1..])
    else s[..RuneSize(s)] + Repaired(s[RuneSize(s)..])
  }

  /** UTF-8 is left alone; anything else changes, and grows. */
  lemma {:induction false} RepairedExactly(s: string)
    ensures Repaired(s) == s <==> Valid(s)
    ensures |Repaired(s)| >= |s|
    ensures !Valid(s) ==> |Repaired(s)| > |s|
  {
    if s == "" {
    } else {
      var n := RuneSize(s);
      if n == 0 {
        RepairedExactly(s[1..]);
      } else {
        RepairedExactly(s[n..]);
        assert s == s[..n] + s[n..];
        assert Repaired(s)[n..] == Repaired(s[n..]);
      }
    }
  }

  lemma RuneSizeOfFront(a: string, b: string)
    requires a != "" && (RuneSize(a) > 0 || b == "" || !Continuation(b[0]))
    ensures RuneSize(a + b) == RuneSize(a)
  {
    var s := a + b;
    assert forall i | 0 <= i < |a| :: s[i] == a[i];
    if b != "" {
      assert s[|a|] == b[0];
    }
  }

  lemma {:induction false} ValidAppend(a: string, b: string)
    requires Valid(a)
    ensures Valid(a + b) <==> Valid(b)
  {
    if a == "" {
      assert a + b == b;
    } else {
      var n := RuneSize(a);
      RuneSizeOfFront(a, b);
      assert (a + b)[n..] == a[n..] + b;
      ValidAppend(a[n..], b);
    }
  }

  /** What does not end a character is not completed by a text that begins one. */
  lemma {:induction false} InvalidAppend(a: string, b: string)
    requires !Valid(a) && (b == "" || !Continuation(b[0]))
    ensures !Valid(a + b)
  {
    RuneSizeOfFront(a, b);
    var n := RuneSize(a);
    if n > 0 {
      assert (a + b)[n..] == a[n..] + b;
      InvalidAppend(a[n..], b);
    }
  }

  lemma InsideRune(s: string, n: nat)
    requires 0 < n < RuneSize(s)
    ensures Continuation(s[n]) && RuneSize(s[..n]) == 0
  {
  }

  /** A cut leaves UTF-8 exactly when it does not fall before a continuation byte. */
  lemma {:induction false} CutValid(s: string, n: nat)
    requires Valid(s) && n <= |s|
    ensures Valid(s[..n]) <==> n == |s| || !Continuation(s[n])
  {
    var size := RuneSize(s);
    if n == 0 || s == "" {
    } else if n < size {
      InsideRune(s, n);
    } else {
      CutValid(s[size..], n - size);
      assert s[..n] == s[..size] + s[size..][..n - size];
      assert s == s[..size] + s[size..];
      RuneOf(s);
      ValidAppend(s[..size], s[size..][..n - size]);
    }
  }

  lemma RuneOf(s: string)
    requires RuneSize(s) > 0
    ensures Valid(s[..RuneSize(s)])
  {
    var c := s[..RuneSize(s)];
    assert RuneSize(c) == |c|;
    assert c[|c|..] == "";
  }

  lemma {:induction false} AsciiValid(s: string)
    requires forall i | 0 <= i < |s| :: s[i] as int < 0x80
    ensures Valid(s)
  {
    if s == "" {
    } else {
      AsciiValid(s[1..]);
    }
  }

  /******* Characters *******/

  /** A Unicode scalar value: no surrogate. */
  predicate Scalar(cp: nat) {
    cp < 0xD800 || 0xE000 <= cp < 0x110000
  }

  /** The bytes of a character. */
  function Encode(cp: nat): (s: string)
    requires Scalar(cp)
    ensures 1 <= |s| <= 4
  {
    if cp < 0x80 then [cp as char]
    else if cp < 0x800 then [(0xC0 + cp / 64) as char, (0x80 + cp % 64) as char]
    else if cp < 0x10000 then [(0xE0 + cp / 4096) as char, (0x80 + cp / 64 % 64) as char, (0x80 + cp % 64) as char]
    else [(0xF0 + cp / 262144) as char, (0x80 + cp / 4096 % 64) as char, (0x80 + cp / 64 % 64) as char, (0x80 + cp % 64) as char]
  }

  lemma EncodedRune(cp: nat, rest: string)
    requires Scalar(cp)
    ensures RuneSize(Encode(cp) + rest) == |Encode(cp)|
  {
  }

  /** The number that six more bits make. */
  function Longer(high: nat, c: char): (cp: nat)
    requires Continuation(c)
    ensures cp / 64 == high && 0x80 + cp % 64 == c as int
  {
    64 * high + (c as int - 0x80)
  }

  /** The character that the front of a text writes. */
  function Decoded(s: string): (cp: nat)
    requires RuneSize(s) > 0
  {
    var n, lead := RuneSize(s), s[0] as int;
    if n == 1 then lead
    else if n == 2 then Longer(lead - 0xC0, s[1])
    else if n == 3 then Longer(Longer(lead - 0xE0, s[1]), s[2])
    else Longer(Longer(Longer(lead - 0xF0, s[1]), s[2]), s[3])
  }

  lemma ShiftTwice(cp: nat)
    ensures cp / 4096 == cp / 64 / 64 && cp / 262144 == cp / 64 / 64 / 64
  {
  }

  lemma RuneScalar(s: string)
    requires RuneSize(s) > 0
    ensures Scalar(Decoded(s))
    ensures RuneSize(s) == 1 <==> Decoded(s) < 0x80
    ensures RuneSize(s) <= 2 <==> Decoded(s) < 0x800
    ensures RuneSize(s) <= 3 <==> Decoded(s) < 0x10000
  {
  }

  lemma RuneEncodes(s: string)
    requires RuneSize(s) > 0
    ensures Scalar(Decoded(s)) && Encode(Decoded(s)) == s[..RuneSize(s)]
  {
    RuneScalar(s);
    var cp, n := Decoded(s), RuneSize(s);
    ShiftTwice(cp);
    if n == 1 {
      assert s[..1] == [s[0]];
    } else if n == 2 {
      assert Encode(cp) == [s[0], s[1]] == s[..2];
    } else if n == 3 {
      assert Encode(cp) == [s[0], s[1], s[2]] == s[..3];
    } else {
      assert Encode(cp) == [s[0], s[1], s[2], s[3]] == s[..4];
    }
  }

  predicate Scalars(cps: seq<nat>) {
    forall i | 0 <= i < |cps| :: Scalar(cps[i])
  }

  function EncodeAll(cps: seq<nat>): string
    requires Scalars(cps)
  {
    if cps == [] then "" else Encode(cps[0]) + EncodeAll(cps[1..])
  }

  lemma {:induction false} EncodedValid(cps: seq<nat>)
    requires Scalars(cps)
    ensures Valid(EncodeAll(cps))
  {
    if cps != [] {
      EncodedValid(cps[1..]);
      EncodedRune(cps[0], EncodeAll(cps[1..]));
    }
  }

  lemma {:induction false} ValidDecodes(s: string) returns (cps: seq<nat>)
    requires Valid(s)
    ensures Scalars(cps) && EncodeAll(cps) == s
  {
    cps := [];
    if s != "" {
      RuneEncodes(s);
      var rest := ValidDecodes(s[RuneSize(s)..]);
      cps := [Decoded(s)] + rest;
      assert s == s[..RuneSize(s)] + s[RuneSize(s)..];
    }
  }

  /** UTF-8 is what encodes some scalar values. */
  lemma ValidExactly(s: string)
    ensures Valid(s) <==> exists cps :: Scalars(cps) && EncodeAll(cps) == s
  {
    if Valid(s) {
      var cps := ValidDecodes(s);
    }
    forall cps | Scalars(cps) && EncodeAll(cps) == s ensures Valid(s) {
      EncodedValid(cps);
    }
  }

  /** A repaired text is UTF-8. */
  lemma {:induction false} RepairedValid(s: string)
    ensures REPLACEMENT == Encode(0xFFFD)
    ensures Valid(Repaired(s))
  {
    if s != "" {
      var n := RuneSize(s);
      if n == 0 {
        RepairedValid(s[1..]);
        EncodedRune(0xFFFD, Repaired(s[1..]));
        assert Encode(0xFFFD) == REPLACEMENT;
      } else {
        RepairedValid(s[n..]);
        RuneOf(s);
        ValidAppend(s[..n], Repaired(s[n..]));
      }
    }
  }
}
