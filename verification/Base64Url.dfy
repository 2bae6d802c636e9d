/** Unpadded URL-safe base64 (section 5 of RFC 4648) as written twice: on the client through
    btoa/atob and on the server through a strict decoder. Both re-encode what they decoded. */
module Base64Url {
  import opened Wrappers
  import opened Bytes

  type sextet = v: int | 0 <= v < 64

  // ---- The encoding on six-bit groups -------------------------------------------------

  function First(a: byte): sextet { a / 4 }

  function Second(a: byte, b: byte): sextet { (a as int) % 4 * 16 + b / 16 }

  function Third(b: byte, c: byte): sextet { (b as int) % 16 * 4 + c / 64 }

  function Fourth(c: byte): sextet { c % 64 }

  function High(p: sextet, q: sextet): byte { (p as int) * 4 + q / 16 }

  function Middle(q: sextet, r: sextet): byte { (q as int) % 16 * 16 + r / 4 }

  function Low(r: sextet, t: sextet): byte { (r as int) % 4 * 64 + t }

  lemma QuantumRoundTrip(a: byte, b: byte, c: byte)
    ensures High(First(a), Second(a, b)) == a
    ensures Middle(Second(a, b), Third(b, c)) == b
    ensures Low(Third(b, c), Fourth(c)) == c
  {
  }

  lemma QuantumInverse(p: sextet, q: sextet, r: sextet, t: sextet)
    ensures First(High(p, q)) == p
    ensures Second(High(p, q), Middle(q, r)) == q
    ensures Third(Middle(q, r), Low(r, t)) == r
    ensures Fourth(Low(r, t)) == t
  {
  }

  function ToSextets(b: seq<byte>): seq<sextet> {
    if |b| == 0 then []
    else if |b| == 1 then [First(b[0]), Second(b[0], 0)]
    else if |b| == 2 then [First(b[0]), Second(b[0], b[1]), Third(b[1], 0)]
    else [First(b[0]), Second(b[0], b[1]), Third(b[1], b[2]), Fourth(b[2])] + ToSextets(b[3..])
  }

  // Surplus bits of the last group are discarded, as the forgiving decoder does.
  function FromSextets(s: seq<sextet>): (b: seq<byte>)
    requires |s| % 4 != 1
    ensures |b| == |s| * 3 / 4
  {
    if |s| == 0 then []
    else if |s| == 2 then [High(s[0], s[1])]
    else if |s| == 3 then [High(s[0], s[1]), Middle(s[1], s[2])]
    else [High(s[0], s[1]), Middle(s[1], s[2]), Low(s[2], s[3])] + FromSextets(s[4..])
  }

  // Section 3.5 of RFC 4648: the pad bits of the last group are zero.
  predicate ZeroPadBits(s: seq<sextet>) {
    && |s| % 4 != 1
    && (|s| % 4 == 2 ==> s[|s| - 1] % 16 == 0)
    && (|s| % 4 == 3 ==> s[|s| - 1] % 4 == 0)
  }

  function SextetCount(n: nat): nat {
    (n * 4 + 2) / 3
  }

  lemma {:induction false} SextetLength(b: seq<byte>)
    ensures |ToSextets(b)| == SextetCount(|b|)
  {
    if |b| >= 3 {
      SextetLength(b[3..]);
      assert SextetCount(|b|) == SextetCount(|b| - 3) + 4;
    }
  }

  lemma {:induction false} SextetsEndInZeroBits(b: seq<byte>)
    ensures ZeroPadBits(ToSextets(b))
  {
    if |b| >= 3 {
      hide First, Second, Third, Fourth;
      SextetsEndInZeroBits(b[3..]);
      GroupKeepsPadBits(ToSextets(b)[..4], ToSextets(b[3..]));
    }
  }

  lemma GroupKeepsPadBits(s: seq<sextet>, tail: seq<sextet>)
    requires |s| == 4 && ZeroPadBits(tail)
    ensures ZeroPadBits(s + tail)
  {
    assert (|s| + |tail|) % 4 == |tail| % 4;
    assert |tail| > 0 ==> (s + tail)[|s + tail| - 1] == tail[|tail| - 1];
  }

  lemma {:induction false} SextetsRoundTrip(b: seq<byte>)
    ensures |ToSextets(b)| == SextetCount(|b|)
    ensures ZeroPadBits(ToSextets(b))
    ensures FromSextets(ToSextets(b)) == b
  {
    hide First, Second, Third, Fourth, High, Middle, Low;
    SextetLength(b);
    SextetsEndInZeroBits(b);
    var s := ToSextets(b);
    if |b| == 1 {
      QuantumRoundTrip(b[0], 0, 0);
    } else if |b| == 2 {
      QuantumRoundTrip(b[0], b[1], 0);
    } else if |b| >= 3 {
      QuantumRoundTrip(b[0], b[1], b[2]);
      SextetsRoundTrip(b[3..]);
      assert s[4..] == ToSextets(b[3..]);
      assert FromSextets(s) == [b[0], b[1], b[2]] + FromSextets(s[4..]);
    }
  }

  // Without pad bits nothing is left for another byte.
  lemma NoPadByte(v: sextet)
    ensures v % 16 == 0 ==> Middle(v, 0) == 0
    ensures v % 4 == 0 ==> Low(v, 0) == 0
  {
  }

  // The last group, of two or three digits.
  lemma LastGroupCanonical(s: seq<sextet>)
    requires ZeroPadBits(s) && 2 <= |s| <= 3
    ensures ToSextets(FromSextets(s)) == s
  {
    hide First, Second, Third, Fourth, High, Middle, Low;
    if |s| == 2 {
      QuantumInverse(s[0], s[1], 0, 0);
      NoPadByte(s[1]);
    } else {
      QuantumInverse(s[0], s[1], s[2], 0);
      NoPadByte(s[2]);
    }
  }

  lemma GroupCanonical(s: seq<sextet>, tail: seq<byte>)
    requires |s| == 4
    ensures ToSextets([High(s[0], s[1]), Middle(s[1], s[2]), Low(s[2], s[3])] + tail) == s + ToSextets(tail)
  {
    QuantumInverse(s[0], s[1], s[2], s[3]);
    hide First, Second, Third, Fourth, High, Middle, Low;
    var b := [High(s[0], s[1]), Middle(s[1], s[2]), Low(s[2], s[3])] + tail;
    assert b[3..] == tail;
  }

  lemma {:induction false} SextetsCanonical(s: seq<sextet>)
    requires ZeroPadBits(s)
    ensures ToSextets(FromSextets(s)) == s
  {
    hide First, Second, Third, Fourth, High, Middle, Low;
    if 2 <= |s| <= 3 {
      LastGroupCanonical(s);
    } else if |s| >= 4 {
      SextetsCanonical(s[4..]);
      GroupCanonical(s[..4], FromSextets(s[4..]));
      assert s == s[..4] + s[4..];
    }
  }

  // ---- Alphabets ----------------------------------------------------------------------

  predicate IsLetter(c: char) {
    'A' <= c <= 'Z' || 'a' <= c <= 'z' || '0' <= c <= '9'
  }

  function Letter(v: sextet): char
    requires v < 62
  {
    if v < 26 then (v + 65) as char else if v < 52 then (v + 71) as char else (v - 4) as char
  }

  function LetterValue(c: char): sextet
    requires IsLetter(c)
  {
    if c <= '9' then c as int + 4 else if c <= 'Z' then c as int - 65 else c as int - 71
  }

  // The standard alphabet of btoa and atob.
  function StandardChar(v: sextet): char {
    if v == 62 then '+' else if v == 63 then '/' else Letter(v)
  }

  predicate IsStandardChar(c: char) {
    IsLetter(c) || c == '+' || c == '/'
  }

  function StandardValue(c: char): sextet
    requires IsStandardChar(c)
  {
    if c == '+' then 62 else if c == '/' then 63 else LetterValue(c)
  }

  // The URL-safe alphabet.
  function UrlChar(v: sextet): char {
    if v == 62 then '-' else if v == 63 then '_' else Letter(v)
  }

  predicate IsUrlChar(c: char) {
    IsLetter(c) || c == '-' || c == '_'
  }

  function UrlValue(c: char): sextet
    requires IsUrlChar(c)
  {
    if c == '-' then 62 else if c == '_' then 63 else LetterValue(c)
  }

  predicate AllUrl(v: string) {
    forall i :: 0 <= i < |v| ==> IsUrlChar(v[i])
  }

  function UrlChars(s: seq<sextet>): (v: string)
    ensures |v| == |s| && AllUrl(v)
  {
    seq(|s|, i requires 0 <= i < |s| => UrlChar(s[i]))
  }

  function UrlValues(v: string): (s: seq<sextet>)
    requires AllUrl(v)
    ensures |s| == |v|
  {
    seq(|v|, i requires 0 <= i < |v| => UrlValue(v[i]))
  }

  lemma UrlCharsInverse(v: string)
    requires AllUrl(v)
    ensures UrlChars(UrlValues(v)) == v
  {
  }

  lemma UrlValuesInverse(s: seq<sextet>)
    ensures UrlValues(UrlChars(s)) == s
  {
  }

  // The reference definition: canonical unpadded base64url of b.
  function Canonical(b: seq<byte>): string {
    UrlChars(ToSextets(b))
  }

  // Byte i, or zero bits behind the end.
  function ByteOrZero(b: seq<byte>, i: nat): byte {
    if i < |b| then b[i] else 0
  }

  // Bits 6j to 6j + 5 of the bytes, read as a number.
  function SixBits(b: seq<byte>, j: nat): sextet {
    var i := j / 4 * 3;
    if j % 4 == 0 then ByteOrZero(b, i) / 4
    else if j % 4 == 1 then (ByteOrZero(b, i) as int) % 4 * 16 + ByteOrZero(b, i + 1) / 16
    else if j % 4 == 2 then (ByteOrZero(b, i + 1) as int) % 16 * 4 + ByteOrZero(b, i + 2) / 64
    else ByteOrZero(b, i + 2) % 64
  }

  lemma {:induction false} SextetsAre(b: seq<byte>, j: nat)
    requires j < |ToSextets(b)|
    ensures ToSextets(b)[j] == SixBits(b, j)
  {
    SextetLength(b);
    if |b| >= 3 && j >= 4 {
      hide First, Second, Third, Fourth, SixBits;
      SextetsAre(b[3..], j - 4);
      assert ToSextets(b)[j] == ToSextets(b[3..])[j - 4];
      SixBitsShift(b, j);
    } else {
      hide ToSextets, First, Second, Third, Fourth;
      FirstSextets(b, j);
    }
  }

  lemma SixBitsShift(b: seq<byte>, j: nat)
    requires |b| >= 3 && j >= 4
    ensures SixBits(b[3..], j - 4) == SixBits(b, j)
  {
    assert (j - 4) / 4 == j / 4 - 1 && (j - 4) % 4 == j % 4;
    assert forall i :: 0 <= i ==> ByteOrZero(b[3..], i) == ByteOrZero(b, i + 3);
  }

  lemma FirstSextets(b: seq<byte>, j: nat)
    requires j < |ToSextets(b)| && j < 4
    ensures ToSextets(b)[j] == SixBits(b, j)
  {
  }

  // Table 2 of RFC 4648.
  predicate IsTableEntry(v: sextet, c: char) {
    && (v <= 25 ==> c as int == 'A' as int + v)
    && (26 <= v <= 51 ==> c as int == 'a' as int + (v - 26))
    && (52 <= v <= 61 ==> c as int == '0' as int + (v - 52))
    && (v == 62 ==> c == '-') && (v == 63 ==> c == '_')
  }

  /** Table 2 and section 4 of RFC 4648: six bits a character, most significant bits first, zero bits at
      the end, no padding. */
  lemma CanonicalIs(b: seq<byte>)
    ensures |Canonical(b)| == (|b| * 8 + 5) / 6
    ensures forall j :: 0 <= j < |Canonical(b)| ==>
              IsTableEntry(SixBits(b, j), Canonical(b)[j])
  {
    SextetLength(b);
    forall j | 0 <= j < |Canonical(b)|
      ensures IsTableEntry(SixBits(b, j), Canonical(b)[j])
    {
      SextetsAre(b, j);
    }
  }

  // ---- The client: btoa and atob with character replacement ----------------------------

  // String.replaceAll with one character in and at most one out.
  function ReplaceAll(v: string, from: char, to: string): string {
    if v == [] then [] else (if v[0] == from then to else [v[0]]) + ReplaceAll(v[1..], from, to)
  }

  lemma {:induction false} ReplaceEach(v: string, from: char, to: char)
    ensures |ReplaceAll(v, from, [to])| == |v|
    ensures forall i :: 0 <= i < |v| ==> ReplaceAll(v, from, [to])[i] == if v[i] == from then to else v[i]
  {
    if v != [] {
      ReplaceEach(v[1..], from, to);
    }
  }

  lemma {:induction false} RemoveTail(v: string, c: char, n: nat)
    requires c !in v
    ensures ReplaceAll(v + Repeat(c, n), c, []) == v
    decreases |v| + n
  {
    var whole := v + Repeat(c, n);
    if v != [] {
      assert whole[1..] == v[1..] + Repeat(c, n);
      RemoveTail(v[1..], c, n);
    } else if n > 0 {
      assert whole[1..] == [] + Repeat(c, n - 1);
      RemoveTail([], c, n - 1);
    }
  }

  function Repeat(c: char, n: nat): string {
    seq(n, i => c)
  }

  function PadCount(n: nat): nat {
    (4 - n % 4) % 4
  }

  function StandardChars(s: seq<sextet>): (v: string)
    ensures |v| == |s|
  {
    seq(|s|, i requires 0 <= i < |s| => StandardChar(s[i]))
  }

  // Section 4 of RFC 4648, with padding.
  function Btoa(binary: seq<byte>): string {
    var s := ToSextets(binary);
    StandardChars(s) + Repeat('=', PadCount(|s|))
  }

  // The forgiving decoder, on input without white space: drop at most two pad characters of a
  // complete last group, then discard surplus bits.
  function Atob(v: string): Option<seq<byte>> {
    var body := WithoutPadding(v);
    if |body| % 4 == 1 || !AllStandard(body) then None
    else Some(FromSextets(StandardValues(body)))
  }

  function WithoutPadding(v: string): string {
    if |v| % 4 != 0 || |v| < 2 || v[|v| - 1] != '=' then v
    else if v[|v| - 2] == '=' then v[..|v| - 2]
    else v[..|v| - 1]
  }

  predicate AllStandard(v: string) {
    forall i :: 0 <= i < |v| ==> IsStandardChar(v[i])
  }

  function StandardValues(v: string): (s: seq<sextet>)
    requires AllStandard(v)
    ensures |s| == |v|
  {
    seq(|v|, i requires 0 <= i < |v| => StandardValue(v[i]))
  }

  // shared/encoding.ts toBase64Url: bytes become a binary string one at a time.
  method ToBase64Url(bytes: seq<byte>) returns (value: string)
    ensures value == Canonical(bytes)
    ensures bytes != [] ==> FromBase64Url(value, None, |bytes|) == Some(bytes)
  {
    hide FromBase64Url, Canonical;
    var binary: seq<byte> := [];
    for i := 0 to |bytes|
      invariant binary == bytes[..i]
    {
      binary := binary + [bytes[i]];
    }
    assert binary == bytes;
    value := ReplaceAll(ReplaceAll(ReplaceAll(Btoa(binary), '+', "-"), '/', "_"), '=', "");
    ToBase64UrlIsCanonical(bytes);
    ClientAcceptsCanonical(value, None, |bytes|, bytes);
  }

  function ToBase64UrlValue(bytes: seq<byte>): string {
    ReplaceAll(ReplaceAll(ReplaceAll(Btoa(bytes), '+', "-"), '/', "_"), '=', "")
  }

  lemma ToBase64UrlIsCanonical(bytes: seq<byte>)
    ensures ToBase64UrlValue(bytes) == Canonical(bytes)
  {
    var s := ToSextets(bytes);
    var standard := Btoa(bytes);
    var dashed := ReplaceAll(standard, '+', "-");
    var scored := ReplaceAll(dashed, '/', "_");
    ReplaceEach(standard, '+', '-');
    ReplaceEach(dashed, '/', '_');
    assert scored == Canonical(bytes) + Repeat('=', PadCount(|s|));
    RemoveTail(Canonical(bytes), '=', PadCount(|s|));
  }

  // shared/encoding.ts fromBase64Url; every rejection is the same error there.
  function FromBase64Url(value: string, expectedBytes: Option<nat>, maxBytes: nat): Option<seq<byte>> {
    if value == [] || !AllUrl(value) || |value| > (maxBytes * 4 + 2) / 3 || |value| % 4 == 1 then None
    else
      var padded := ToStandard(value) + Repeat('=', PadCount(|value|));
      match Atob(padded)
      case None => None
      case Some(bytes) =>
        if |bytes| > maxBytes
           || (expectedBytes.Some? && |bytes| != expectedBytes.value)
           || ToBase64UrlValue(bytes) != value
        then None
        else Some(bytes)
  }

  lemma PaddingRemoved(body: string)
    requires AllStandard(body) && |body| % 4 != 1
    ensures WithoutPadding(body + Repeat('=', PadCount(|body|))) == body
  {
    var n := PadCount(|body|);
    var v := body + Repeat('=', n);
    assert |body| > 0 ==> IsStandardChar(body[|body| - 1]) && v[|body| - 1] == body[|body| - 1];
    assert v[..|body|] == body;
  }

  // The client's way back to the standard alphabet.
  function ToStandard(value: string): string {
    ReplaceAll(ReplaceAll(value, '-', "+"), '_', "/")
  }

  lemma StandardOfUrl(value: string)
    requires AllUrl(value)
    ensures AllStandard(ToStandard(value)) && StandardValues(ToStandard(value)) == UrlValues(value)
  {
    ReplaceEach(value, '-', '+');
    ReplaceEach(ReplaceAll(value, '-', "+"), '_', '/');
    var body := ToStandard(value);
    forall i | 0 <= i < |body|
      ensures IsStandardChar(body[i]) && StandardValue(body[i]) == UrlValue(value[i])
    {
      assert IsUrlChar(value[i]);
    }
  }

  lemma AtobOfUrl(value: string)
    requires AllUrl(value) && |value| % 4 != 1
    ensures Atob(ToStandard(value) + Repeat('=', PadCount(|value|))) == Some(FromSextets(UrlValues(value)))
  {
    StandardOfUrl(value);
    PaddingRemoved(ToStandard(value));
  }

  /** The client accepts exactly the canonical encodings of non-empty byte strings that fit. */
  lemma ClientAcceptsCanonical(value: string, expectedBytes: Option<nat>, maxBytes: nat, b: seq<byte>)
    ensures FromBase64Url(value, expectedBytes, maxBytes) == Some(b)
       <==> value == Canonical(b) && 0 < |b| <= maxBytes && (expectedBytes.Some? ==> |b| == expectedBytes.value)
  {
    hide ToSextets, FromSextets, ToStandard, Atob, UrlChars, UrlValues, ToBase64UrlValue;
    SextetsRoundTrip(b);
    UrlValuesInverse(ToSextets(b));
    ToBase64UrlIsCanonical(b);
    if value != [] && AllUrl(value) && |value| % 4 != 1 {
      AtobOfUrl(value);
      ToBase64UrlIsCanonical(FromSextets(UrlValues(value)));
    }
  }

  // ---- The server --------------------------------------------------------------------

  // URL_SAFE_NO_PAD.decode: no padding, no other characters, no surplus bits.
  function StrictDecode(value: string): Option<seq<byte>> {
    if !AllUrl(value) || !ZeroPadBits(UrlValues(value)) then None
    else Some(FromSextets(UrlValues(value)))
  }

  // server/src/protocol.rs base64_bytes
  function Base64Bytes(value: string, length: nat): Option<seq<byte>> {
    if |value| != (length * 8 + 5) / 6 then None
    else
      match StrictDecode(value)
      case None => None
      case Some(decoded) => if |decoded| != length || Canonical(decoded) != value then None else Some(decoded)
  }

  lemma ServerAcceptsCanonical(value: string, length: nat, b: seq<byte>)
    ensures Base64Bytes(value, length) == Some(b) <==> value == Canonical(b) && |b| == length
  {
    SextetsRoundTrip(b);
    UrlValuesInverse(ToSextets(b));
  }

  /** Both implementations accept the same strings of a fixed length and return the same bytes,
      except for length zero: the client's pattern wants at least one character. */
  lemma ClientAndServerAgree(length: nat)
    ensures (forall value: string :: FromBase64Url(value, Some(length), length) == Base64Bytes(value, length)) <==> length > 0
  {
    forall value: string | length > 0
      ensures FromBase64Url(value, Some(length), length) == Base64Bytes(value, length)
    {
      var c, s := FromBase64Url(value, Some(length), length), Base64Bytes(value, length);
      if c.Some? { ClientAcceptsCanonical(value, Some(length), length, c.value); ServerAcceptsCanonical(value, length, c.value); }
      if s.Some? { ClientAcceptsCanonical(value, Some(length), length, s.value); ServerAcceptsCanonical(value, length, s.value); }
    }
    if length == 0 {
      ServerAcceptsCanonical("", 0, []);
      assert FromBase64Url("", Some(0), 0) != Base64Bytes("", 0);
    }
  }

  // deploy/nginx-admission.conf: 42 URL-safe characters and one of a restricted class.
  predicate ProxyIdPattern(value: string) {
    && |value| == 43
    && (forall i :: 0 <= i < 42 ==> IsUrlChar(value[i]))
    && value[42] in "AEIMQUYcgkosw048"
  }

  lemma RestrictedClass(c: char)
    ensures c in "AEIMQUYcgkosw048" <==> IsUrlChar(c) && UrlValue(c) % 4 == 0
  {
  }

  /** A note identifier passes the proxy exactly when it passes the client and the server. */
  lemma ProxyAgrees(value: string)
    ensures ProxyIdPattern(value) <==> FromBase64Url(value, Some(32), 32).Some?
    ensures ProxyIdPattern(value) <==> Base64Bytes(value, 32).Some?
  {
    ClientAndServerAgree(32);
    assert FromBase64Url(value, Some(32), 32) == Base64Bytes(value, 32);
    if |value| == 43 {
      RestrictedClass(value[42]);
      if AllUrl(value) {
        var s := UrlValues(value);
        assert s[42] == UrlValue(value[42]);
        if ZeroPadBits(s) {
          SextetsCanonical(s);
          UrlCharsInverse(value);
        }
      }
    }
  }
}
