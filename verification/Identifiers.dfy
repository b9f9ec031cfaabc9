/**
 The identifiers built on the codec, and the phone's check of a device token. Random
 and time-based bytes are parameters.
 */
module Identifiers {
  import opened Bits
  import opened Crockford
  import opened CrockfordOrder
  import Buffers = CrockfordBuffers
  import Lex

  type Uuid = b: seq<Byte> | |b| == 16 witness seq(16, _ => 0)

  /** The first 48 bits of a version 7 UUID: Unix milliseconds (section 5.7 of RFC 9562). */
  function Millis(u: Uuid): nat {
    Value(Prefix(u, 48))
  }

  function FlowIdOf(u: Uuid): string {
    "fl_" + Encoded(u, 128)
  }

  function NotificationIdOf(u: Uuid): string {
    "ntf_" + Encoded(u, 80)
  }

  /** Flow ids sort exactly as the raw UUIDs do. */
  lemma FlowIdOrder(a: Uuid, b: Uuid)
    ensures Lex.Less(FlowIdOf(a), FlowIdOf(b)) <==> BytesLess(a, b)
    ensures FlowIdOf(a) == FlowIdOf(b) <==> a == b
  {
    Lex.Blocks("fl_", "fl_", Encoded(a, 128), Encoded(b, 128));
    Lex.Irreflexive("fl_");
    EncodeMonotone(a, b);
    assert FlowIdOf(a)[3..] == Encoded(a, 128) && FlowIdOf(b)[3..] == Encoded(b, 128);
    EncodedOrder(a, b, 128);
    if FlowIdOf(a) == FlowIdOf(b) {
      assert forall p | 0 <= p < 128 :: Prefix(a, 128)[p] == Prefix(b, 128)[p];
      SameBits(a, b);
    }
  }

  /** Notification ids keep 80 bits: order is never reversed, and ids differ when those bits do. */
  lemma NotificationIdOrder(a: Uuid, b: Uuid)
    ensures BytesLess(a, b) ==> Lex.Less(NotificationIdOf(a), NotificationIdOf(b)) || NotificationIdOf(a) == NotificationIdOf(b)
    ensures NotificationIdOf(a) == NotificationIdOf(b) <==> Prefix(a, 80) == Prefix(b, 80)
  {
    Lex.Blocks("ntf_", "ntf_", Encoded(a, 80), Encoded(b, 80));
    assert NotificationIdOf(a)[4..] == Encoded(a, 80) && NotificationIdOf(b)[4..] == Encoded(b, 80);
    EncodedOrder(a, b, 80);
    if BytesLess(a, b) {
      EncodePrefixMonotone(a, b, 80);
    }
  }

  /** Ids made in a later millisecond sort later, whatever the random bits. */
  lemma IdsAreChronological(a: Uuid, b: Uuid)
    requires Millis(a) < Millis(b)
    ensures Lex.Less(FlowIdOf(a), FlowIdOf(b)) && Lex.Less(NotificationIdOf(a), NotificationIdOf(b))
  {
    LeadingBitsDecide(a, b, 48, 128);
    LeadingBitsDecide(a, b, 48, 80);
    Lex.Blocks("fl_", "fl_", Encoded(a, 128), Encoded(b, 128));
    Lex.Blocks("ntf_", "ntf_", Encoded(a, 80), Encoded(b, 80));
  }

  /** A flow id is `fl_` and 26 characters that decode to the UUID. */
  lemma FlowIdDecodes(u: Uuid)
    ensures |FlowIdOf(u)| == 29 && FlowIdOf(u)[..3] == "fl_"
    ensures var r := Decode(FlowIdOf(u)[3..]); r.Decoded? && |r.bytes| >= 16 && r.bytes[..16] == u
  {
    assert FlowIdOf(u)[3..] == Encoded(u, 128);
    DecodeOfEncodedBytes(u);
  }

  /** A notification id is `ntf_` and 16 characters that decode to its first ten bytes. */
  lemma NotificationIdDecodes(u: Uuid)
    ensures |NotificationIdOf(u)| == 20 && NotificationIdOf(u)[..4] == "ntf_"
    ensures Decode(NotificationIdOf(u)[4..]) == Decoded(u[..10])
  {
    assert NotificationIdOf(u)[4..] == Encoded(u, 80);
    DecodeOfEncode(u, 80);
    var out := Decode(Encoded(u, 80)).bytes;
    forall p | 0 <= p < 80 ensures BitAt(out, p) == BitAt(u[..10], p) {
    }
    BitsThenZeros(u[..10], out);
  }

  /******* Device tokens *******/

  const TOKEN_PREFIX := "rn_tk_"

  function DeviceTokenOf(random: seq<Byte>): string
    requires |random| == 32
  {
    TOKEN_PREFIX + Encoded(random, 256)
  }

  /** The phone's character class: no I, L, O, U in either case. */
  predicate TokenChar(c: char) {
    || '0' <= c <= '9'
    || 'A' <= c <= 'H' || c in {'J', 'K', 'M', 'N'} || 'P' <= c <= 'T' || 'V' <= c <= 'Z'
    || 'a' <= c <= 'h' || c in {'j', 'k', 'm', 'n'} || 'p' <= c <= 't' || 'v' <= c <= 'z'
  }

  /** `validateToken` accepts. */
  predicate ValidToken(token: string) {
    && |token| == 58
    && token[..6] == "rn_tk_"
    && forall i | 6 <= i < 58 :: TokenChar(token[i])
  }

  function UpperText(s: string): (u: string)
    ensures |u| == |s|
  {
    seq(|s|, i requires 0 <= i < |s| => Upper(s[i]))
  }

  lemma TokenCharMeans(c: char)
    ensures TokenChar(c) <==> Symbol(c) >= 0 && c != '-' && Upper(c) == ALPHABET[if Symbol(c) >= 0 then Symbol(c) else 0]
  {
    if Symbol(c) >= 0 {
      AlphabetSymbols(Symbol(c));
      if TokenChar(c) {
        Buffers.SymbolUnique(Upper(c), ALPHABET[Symbol(c)]);
      }
    }
  }

  /** The phone accepts a body exactly when the daemon decodes it and, case aside, it is spelled canonically. */
  lemma PhoneAcceptsCanonical(body: string)
    ensures (forall i | 0 <= i < |body| :: TokenChar(body[i])) <==>
            '-' !in body && Decode(body).Decoded? && Canonical(body) == UpperText(body)
  {
    forall i | 0 <= i < |body|
      ensures TokenChar(body[i]) <==>
              Symbol(body[i]) >= 0 && body[i] != '-' && Upper(body[i]) == ALPHABET[if Symbol(body[i]) >= 0 then Symbol(body[i]) else 0]
    {
      TokenCharMeans(body[i]);
    }
    if '-' !in body {
      StripNothing(body);
      if Decode(body).Decoded? {
        assert forall i | 0 <= i < |body| :: Canonical(body)[i] == ALPHABET[Symbol(body[i])];
        assert Canonical(body) == UpperText(body) ==> forall i | 0 <= i < |body| :: Canonical(body)[i] == UpperText(body)[i];
      }
    }
  }

  lemma TokenPasses(random: seq<Byte>)
    requires |random| == 32
    ensures ValidToken(DeviceTokenOf(random))
  {
    var token := DeviceTokenOf(random);
    forall i | 6 <= i < 58 ensures TokenChar(token[i]) {
      var g := Group(random, 5 * (i - 6), 256);
      GroupBound(g);
      AlphabetSymbols(Value(g));
      TokenCharMeans(ALPHABET[Value(g)]);
      assert token[i] == Encoded(random, 256)[i - 6];
    }
  }

  /** Every token the daemon makes passes the phone's check, and gives back its random bytes. */
  lemma TokensAgree(random: seq<Byte>)
    requires |random| == 32
    ensures ValidToken(DeviceTokenOf(random))
    ensures var r := Decode(DeviceTokenOf(random)[6..]); r.Decoded? && |r.bytes| == 33 && r.bytes[..32] == random
  {
    TokenPasses(random);
    assert DeviceTokenOf(random)[6..] == Encoded(random, 256);
    DecodeOfEncode(random, 256);
    DecodeOfEncodedBytes(random);
  }

  method GenerateDeviceToken(random: array<Byte>) returns (token: string)
    requires random.Length == 32
    ensures token == DeviceTokenOf(random[..]) && ValidToken(token)
  {
    var enc := Buffers.EncodeBits(random, 256);
    token := TOKEN_PREFIX + enc.value;
    TokensAgree(random[..]);
  }

  method GenerateDeviceId(random: array<Byte>) returns (id: string)
    requires random.Length == 9
    ensures |id| == 16 && id == "mb_" + Encoded(random[..], 65)
  {
    var enc := Buffers.EncodeBits(random, 65);
    id := "mb_" + enc.value;
  }
}
