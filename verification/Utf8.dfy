/** UTF-16 strings and UTF-8 (section 3 of RFC 3629): TextEncoder, the fatal TextDecoder, and
    the exact encoding the client builds from the two. */
module Utf8 {
  import opened Wrappers
  import opened Bytes

  // One UTF-16 code unit; a JavaScript string is a sequence of them.
  type unit = u: int | 0 <= u < 0x1_0000

  type Text = seq<unit>

  predicate IsLead(u: unit) { 0xD800 <= u <= 0xDBFF }

  predicate IsTrail(u: unit) { 0xDC00 <= u <= 0xDFFF }

  predicate IsSurrogate(u: unit) { 0xD800 <= u <= 0xDFFF }

  // The first code point of t is a surrogate pair.
  predicate StartsWithPair(t: Text) {
    |t| >= 2 && IsLead(t[0]) && IsTrail(t[1])
  }

  predicate WellFormed(t: Text) {
    if t == [] then true
    else if StartsWithPair(t) then WellFormed(t[2..])
    else !IsSurrogate(t[0]) && WellFormed(t[1..])
  }

  // ---- TextEncoder: lone surrogates become U+FFFD ---------------------------------------

  function EncodeBmp(c: unit): seq<byte> {
    if c < 0x80 then [c]
    else if c < 0x800 then [0xC0 + c / 64, 0x80 + c % 64]
    else [0xE0 + c / 4096, 0x80 + c / 64 % 64, 0x80 + c % 64]
  }

  function PairValue(lead: unit, trail: unit): (c: int)
    requires IsLead(lead) && IsTrail(trail)
    ensures 0x1_0000 <= c <= 0x10_FFFF
  {
    0x1_0000 + (lead - 0xD800) * 0x400 + (trail - 0xDC00)
  }

  function EncodeSupplementary(c: int): (b: seq<byte>)
    requires 0x1_0000 <= c <= 0x10_FFFF
    ensures |b| == 4
  {
    [0xF0 + c / 0x4_0000, 0x80 + c / 4096 % 64, 0x80 + c / 64 % 64, 0x80 + c % 64]
  }

  function Encode(t: Text): seq<byte> {
    if t == [] then []
    else if StartsWithPair(t) then EncodeSupplementary(PairValue(t[0], t[1])) + Encode(t[2..])
    else EncodeBmp(if IsSurrogate(t[0]) then 0xFFFD else t[0]) + Encode(t[1..])
  }

  // ---- TextDecoder with fatal: true and ignoreBOM: true ----------------------------------

  predicate IsContinuation(b: byte) { 0x80 <= b < 0xC0 }

  // Appends the six payload bits of a continuation byte.
  function Glue(high: int, next: byte): int {
    high * 64 + (next - 0x80)
  }

  lemma GlueLaw(high: int, next: byte)
    requires IsContinuation(next)
    ensures Glue(high, next) / 64 == high && 0x80 + Glue(high, next) % 64 == next
  {
  }

  // The code units of the first code point and how many bytes it takes.
  function DecodeFirst(b: seq<byte>): (r: Option<(Text, nat)>)
    requires b != []
    ensures r.Some? ==> 1 <= r.value.1 <= |b| && r.value.0 != []
  {
    if b[0] < 0x80 then Some(([b[0] as unit], 1))
    else if b[0] < 0xC2 then None
    else if b[0] < 0xE0 then
      if |b| >= 2 && IsContinuation(b[1]) then Some(([Glue(b[0] - 0xC0, b[1]) as unit], 2)) else None
    else if b[0] < 0xF0 then
      if |b| >= 3 && IsContinuation(b[1]) && IsContinuation(b[2]) then
        var c := Glue(Glue(b[0] - 0xE0, b[1]), b[2]);
        if c < 0x800 || IsSurrogate(c) then None else Some(([c as unit], 3))
      else None
    else if b[0] < 0xF5 then
      if |b| >= 4 && IsContinuation(b[1]) && IsContinuation(b[2]) && IsContinuation(b[3]) then
        var c := Glue(Glue(Glue(b[0] - 0xF0, b[1]), b[2]), b[3]);
        if c < 0x1_0000 || c > 0x10_FFFF then None
        else Some(([(0xD800 + (c - 0x1_0000) / 0x400) as unit, (0xDC00 + (c - 0x1_0000) % 0x400) as unit], 4))
      else None
    else None
  }

  function Decode(b: seq<byte>): Option<Text> {
    if b == [] then Some([])
    else
      match DecodeFirst(b)
      case None => None
      case Some((units, n)) =>
        match Decode(b[n..])
        case None => None
        case Some(rest) => Some(units + rest)
  }

  lemma DecodeFirstOfBmp(c: unit, rest: seq<byte>)
    requires !IsSurrogate(c)
    ensures DecodeFirst(EncodeBmp(c) + rest) == Some(([c], |EncodeBmp(c)|))
  {
    var b := EncodeBmp(c) + rest;
    if 0x80 <= c < 0x800 {
      assert b[0] == 0xC0 + c / 64 && b[1] == 0x80 + c % 64;
    } else if c >= 0x800 {
      assert b[0] == 0xE0 + c / 4096 && b[1] == 0x80 + c / 64 % 64 && b[2] == 0x80 + c % 64;
      assert c == c / 4096 * 4096 + c / 64 % 64 * 64 + c % 64;
    }
  }

  lemma SupplementaryGlued(c: int)
    requires 0x1_0000 <= c <= 0x10_FFFF
    ensures var e := EncodeSupplementary(c);
            && 0xF0 <= e[0] < 0xF5 && IsContinuation(e[1]) && IsContinuation(e[2]) && IsContinuation(e[3])
            && Glue(Glue(Glue(e[0] - 0xF0, e[1]), e[2]), e[3]) == c
  {
    assert c / 0x4_0000 == c / 4096 / 64 && c / 4096 == c / 64 / 64;
  }

  lemma DecodeFirstOfPair(lead: unit, trail: unit, rest: seq<byte>)
    requires IsLead(lead) && IsTrail(trail)
    ensures DecodeFirst(EncodeSupplementary(PairValue(lead, trail)) + rest) == Some(([lead, trail], 4))
  {
    var c := PairValue(lead, trail);
    var e := EncodeSupplementary(c);
    var b := e + rest;
    SupplementaryGlued(c);
    hide EncodeSupplementary, Glue;
    assert b[0] == e[0] && b[1] == e[1] && b[2] == e[2] && b[3] == e[3];
    assert (c - 0x1_0000) / 0x400 == lead - 0xD800 && (c - 0x1_0000) % 0x400 == trail - 0xDC00;
  }

  /** Decoding the encoding of well-formed text returns the text. */
  lemma {:induction false} DecodeEncode(t: Text)
    requires WellFormed(t)
    ensures Decode(Encode(t)) == Some(t)
  {
    if t != [] {
      var b := Encode(t);
      if StartsWithPair(t) {
        DecodeFirstOfPair(t[0], t[1], Encode(t[2..]));
        assert b[4..] == Encode(t[2..]);
        DecodeEncode(t[2..]);
        assert t == [t[0], t[1]] + t[2..];
      } else {
        DecodeFirstOfBmp(t[0], Encode(t[1..]));
        assert b[|EncodeBmp(t[0])|..] == Encode(t[1..]);
        DecodeEncode(t[1..]);
        assert t == [t[0]] + t[1..];
      }
    }
  }

  lemma OneByteReencoded(a: byte)
    requires a < 0x80
    ensures EncodeBmp(a) == [a]
  {
  }

  lemma TwoByteReencoded(a: byte, b: byte)
    requires 0xC2 <= a < 0xE0 && IsContinuation(b)
    ensures 0 <= Glue(a - 0xC0, b) < 0x800 && EncodeBmp(Glue(a - 0xC0, b)) == [a, b]
  {
    GlueLaw(a - 0xC0, b);
  }

  lemma ThreeByteReencoded(a: byte, b: byte, c: byte)
    requires 0xE0 <= a < 0xF0 && IsContinuation(b) && IsContinuation(c)
    ensures var v := Glue(Glue(a - 0xE0, b), c); 0 <= v < 0x1_0000 && (v >= 0x800 ==> EncodeBmp(v) == [a, b, c])
  {
    var two := Glue(a - 0xE0, b);
    GlueLaw(a - 0xE0, b);
    GlueLaw(two, c);
    assert Glue(two, c) / 4096 == two / 64;
  }

  lemma FourByteReencoded(a: byte, b: byte, c: byte, d: byte)
    requires IsContinuation(b) && IsContinuation(c) && IsContinuation(d)
    requires 0x1_0000 <= Glue(Glue(Glue(a - 0xF0, b), c), d) <= 0x10_FFFF
    ensures EncodeSupplementary(Glue(Glue(Glue(a - 0xF0, b), c), d)) == [a, b, c, d]
  {
    var two := Glue(a - 0xF0, b);
    var three := Glue(two, c);
    var v := Glue(three, d);
    GlueLaw(a - 0xF0, b);
    GlueLaw(two, c);
    GlueLaw(three, d);
    assert v / 64 == three && v / 4096 == v / 64 / 64 == two && v / 0x4_0000 == v / 4096 / 64 == a - 0xF0;
  }

  lemma PairOf(v: int)
    requires 0x1_0000 <= v <= 0x10_FFFF
    ensures var lead, trail := 0xD800 + (v - 0x1_0000) / 0x400, 0xDC00 + (v - 0x1_0000) % 0x400;
            0 <= lead < 0x1_0000 && 0 <= trail < 0x1_0000 && IsLead(lead) && IsTrail(trail) && PairValue(lead, trail) == v
  {
  }

  // What DecodeFirst reads is what one step of Encode writes.
  predicate Reencodes(b: seq<byte>, units: Text, n: nat) {
    n <= |b| &&
    if n == 4 then |units| == 2 && IsLead(units[0]) && IsTrail(units[1])
                   && EncodeSupplementary(PairValue(units[0], units[1])) == b[..4]
    else |units| == 1 && !IsSurrogate(units[0]) && EncodeBmp(units[0]) == b[..n]
  }

  lemma FirstPairReencoded(b: seq<byte>)
    requires b != [] && DecodeFirst(b).Some? && DecodeFirst(b).value.1 == 4
    ensures Reencodes(b, DecodeFirst(b).value.0, 4)
  {
    hide Glue, EncodeSupplementary, PairValue;
    var v := Glue(Glue(Glue(b[0] - 0xF0, b[1]), b[2]), b[3]);
    FourByteReencoded(b[0], b[1], b[2], b[3]);
    PairOf(v);
    assert b[..4] == [b[0], b[1], b[2], b[3]];
  }

  lemma FirstReencoded(b: seq<byte>)
    requires b != [] && DecodeFirst(b).Some?
    ensures Reencodes(b, DecodeFirst(b).value.0, DecodeFirst(b).value.1)
  {
    hide Glue, EncodeBmp, EncodeSupplementary, PairValue;
    if b[0] < 0x80 {
      assert b[..1] == [b[0]] == EncodeBmp(b[0]) by { OneByteReencoded(b[0]); }
    } else if b[0] < 0xE0 {
      TwoByteReencoded(b[0], b[1]);
      assert b[..2] == [b[0], b[1]];
    } else if b[0] < 0xF0 {
      ThreeByteReencoded(b[0], b[1], b[2]);
      assert b[..3] == [b[0], b[1], b[2]];
    } else {
      FirstPairReencoded(b);
    }
  }

  /** Whatever the fatal decoder accepts is well formed and encodes back to the same bytes. */
  lemma {:induction false} EncodeDecode(b: seq<byte>)
    requires Decode(b).Some?
    ensures WellFormed(Decode(b).value) && Encode(Decode(b).value) == b
    ensures |Decode(b).value| <= |b|
  {
    if b != [] {
      var (units, n) := DecodeFirst(b).value;
      var rest := Decode(b[n..]).value;
      var t := Decode(b).value;
      FirstReencoded(b);
      EncodeDecode(b[n..]);
      hide DecodeFirst, EncodeBmp, EncodeSupplementary, PairValue;
      assert t == units + rest;
      assert t[|units|..] == rest;
      assert b == b[..n] + b[n..];
    }
  }

  // shared/encoding.ts encodeText: encode, and refuse text that does not decode to itself.
  function EncodeText(t: Text): Option<seq<byte>> {
    if Decode(Encode(t)) == Some(t) then Some(Encode(t)) else None
  }

  lemma EncodeTextAccepts(t: Text)
    ensures EncodeText(t).Some? <==> WellFormed(t)
  {
    if WellFormed(t) { DecodeEncode(t); }
    if EncodeText(t).Some? { EncodeDecode(Encode(t)); }
  }

  predicate IsAscii(t: Text) {
    forall i :: 0 <= i < |t| ==> t[i] < 0x80
  }

  lemma {:induction false} EncodeAscii(t: Text)
    requires IsAscii(t)
    ensures WellFormed(t) && |Encode(t)| == |t| && (forall i :: 0 <= i < |t| ==> Encode(t)[i] == t[i])
  {
    if t != [] {
      EncodeAscii(t[1..]);
    }
  }

  predicate IsPayload(b: byte) { 128 <= b <= 191 }

  // c in two, three and four bytes: a first byte that tells the length, then six bits a byte.
  predicate IsTwoBytes(b: seq<byte>, c: int) {
    |b| == 2 && 194 <= b[0] <= 223 && IsPayload(b[1]) && (b[0] as int - 192) * 64 + (b[1] as int - 128) == c
  }

  predicate IsThreeBytes(b: seq<byte>, c: int) {
    && |b| == 3 && 224 <= b[0] <= 239 && IsPayload(b[1]) && IsPayload(b[2])
    && (b[0] as int - 224) * 4096 + (b[1] as int - 128) * 64 + (b[2] as int - 128) == c
  }

  predicate IsFourBytes(b: seq<byte>, c: int) {
    && |b| == 4 && 240 <= b[0] <= 244 && IsPayload(b[1]) && IsPayload(b[2]) && IsPayload(b[3])
    && (b[0] as int - 240) * 262144 + (b[1] as int - 128) * 4096 + (b[2] as int - 128) * 64 + (b[3] as int - 128) == c
  }

  predicate IsEncodingOf(b: seq<byte>, c: int) {
    if c <= 127 then |b| == 1 && b[0] == c
    else if c <= 2047 then IsTwoBytes(b, c)
    else if c <= 65535 then IsThreeBytes(b, c)
    else IsFourBytes(b, c)
  }

  /** Text is encoded code point by code point in the layout of section 3 of RFC 3629; a lone surrogate is
      written as U+FFFD. */
  lemma CodePointBytes(t: Text) returns (b: seq<byte>)
    requires t != []
    ensures if |t| >= 2 && 0xD800 <= t[0] < 0xDC00 && 0xDC00 <= t[1] < 0xE000
            then Encode(t) == b + Encode(t[2..]) && IsEncodingOf(b, 0x10000 + (t[0] as int - 0xD800) * 1024 + (t[1] as int - 0xDC00))
            else Encode(t) == b + Encode(t[1..]) && IsEncodingOf(b, if 0xD800 <= t[0] < 0xE000 then 0xFFFD else t[0])
  {
    if StartsWithPair(t) {
      b := EncodeSupplementary(PairValue(t[0], t[1]));
      SupplementaryGlued(PairValue(t[0], t[1]));
      hide EncodeSupplementary;
      assert IsFourBytes(b, PairValue(t[0], t[1]));
    } else {
      var c: unit := if IsSurrogate(t[0]) then 0xFFFD else t[0];
      BmpBytes(c);
      b := EncodeBmp(c);
      hide EncodeBmp;
    }
  }

  lemma BmpBytes(c: unit)
    ensures IsEncodingOf(EncodeBmp(c), c)
  {
    assert c == c / 4096 * 4096 + c / 64 % 64 * 64 + c % 64;
    assert c == c / 64 * 64 + c % 64;
  }

  predicate IsHighHalf(u: unit) { 0xD800 <= u < 0xDC00 }

  predicate IsLowHalf(u: unit) { 0xDC00 <= u < 0xE000 }

  // Unit i is no half of a surrogate pair without the other one.
  predicate IsWhole(t: Text, i: nat)
    requires i < |t|
  {
    && (IsHighHalf(t[i]) ==> i + 1 < |t| && IsLowHalf(t[i + 1]))
    && (IsLowHalf(t[i]) ==> i > 0 && IsHighHalf(t[i - 1]))
  }

  /** Well-formed text is exactly the text in which every half of a surrogate pair stands by the other. */
  lemma {:induction false} WellFormedIs(t: Text)
    ensures WellFormed(t) <==> forall i :: 0 <= i < |t| ==> IsWhole(t, i)
  {
    if t != [] {
      var n := if StartsWithPair(t) then 2 else 1;
      var rest := t[n..];
      WellFormedIs(rest);
      if StartsWithPair(t) {
        assert IsWhole(t, 0) && IsWhole(t, 1);
      } else {
        assert IsWhole(t, 0) <==> !IsSurrogate(t[0]);
      }
      if !IsSurrogate(t[0]) || n == 2 {
        forall i | 0 <= i < |rest| ensures IsWhole(rest, i) <==> IsWhole(t, i + n) {
        }
        if forall i :: 0 <= i < |rest| ==> IsWhole(rest, i) {
          forall i | n <= i < |t| ensures IsWhole(t, i) {
            assert IsWhole(rest, i - n);
          }
        }
        if forall i :: 0 <= i < |t| ==> IsWhole(t, i) {
          forall i | 0 <= i < |rest| ensures IsWhole(rest, i) {
            assert IsWhole(t, i + n);
          }
        }
      }
    }
  }
}
