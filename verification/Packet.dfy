/** The outer packet ERS1 and its canonical JSON header, parsed independently by the client and
    by the server. */
module Packet {
  import opened Wrappers
  import opened Bytes
  import opened Decimals
  import Base64Url
  import Utf8
  import Content

  const MAX_HEADER_BYTES: nat := 2048
  const MAX_PACKET_BYTES: nat := Content.MAX_CONTENT_BYTES + 32768

  const ERS1: seq<byte> := [69, 82, 83, 49]

  datatype Header = Header(version: nat, id: string, ttl: nat, views: nat, peek: string, read: string,
                           revoke: string, kdf: string, salt: string, nonce: string)

  // ---- Valid headers ----------------------------------------------------------------------

  predicate IsHexDigit(c: char) {
    IsDigit(c) || 'a' <= c <= 'f'
  }

  predicate IsHash(s: string) {
    |s| == 64 && forall i :: 0 <= i < 64 ==> IsHexDigit(s[i])
  }

  predicate IsToken(s: string, bytes: nat) {
    bytes > 0 && Base64Url.Base64Bytes(s, bytes).Some?
  }

  predicate ValidHeader(h: Header) {
    && h.version == 1 && IsToken(h.id, 32) && 60 <= h.ttl <= 604800 && 1 <= h.views <= 100
    && IsHash(h.peek) && IsHash(h.read) && IsHash(h.revoke)
    && ((h.kdf == "none" && h.salt == "") || (h.kdf == "argon2id" && IsToken(h.salt, 16)))
    && IsToken(h.nonce, 24)
  }

  // Characters JSON writes as they are; none of them ends a member.
  predicate IsPlain(s: string) {
    forall i :: 0 <= i < |s| ==> s[i] < 128 as char && s[i] != '"' && s[i] != ','
  }

  lemma TokenIsPlain(s: string, bytes: nat)
    requires IsToken(s, bytes)
    ensures IsPlain(s) && |s| == (bytes * 8 + 5) / 6
  {
    assert Base64Url.AllUrl(s);
  }

  lemma TokenOnClient(s: string, bytes: nat)
    requires bytes > 0
    ensures Base64Url.FromBase64Url(s, Some(bytes), bytes) == Base64Url.Base64Bytes(s, bytes)
  {
    hide Base64Url.FromBase64Url, Base64Url.Base64Bytes;
    Base64Url.ClientAndServerAgree(bytes);
  }

  // ---- Serialization ------------------------------------------------------------------------

  const LABELS: seq<string> := [
    "{\"version\":", ",\"id\":\"", "\",\"ttl\":", ",\"views\":", ",\"peek\":\"", "\",\"read\":\"",
    "\",\"revoke\":\"", "\",\"kdf\":\"", "\",\"salt\":\"", "\",\"nonce\":\"", "\"}"
  ]

  function Values(h: Header): (v: seq<string>)
    ensures |v| == 10
  {
    [Decimal(h.version), h.id, Decimal(h.ttl), Decimal(h.views), h.peek, h.read, h.revoke, h.kdf, h.salt, h.nonce]
  }

  function Interleave(labels: seq<string>, values: seq<string>): string
    requires |labels| == |values| + 1
  {
    if values == [] then labels[0] else labels[0] + values[0] + Interleave(labels[1..], values[1..])
  }

  // The JSON text without white space, members in the fixed order.
  function HeaderText(h: Header): string {
    Interleave(LABELS, Values(h))
  }

  /** The text of a header: the ten members in this order, without white space, numbers in decimal. */
  lemma HeaderTextIs(h: Header)
    ensures HeaderText(h)
         == "{\"version\":" + Decimal(h.version) + (",\"id\":\"" + h.id + ("\",\"ttl\":" + Decimal(h.ttl)
            + (",\"views\":" + Decimal(h.views) + (",\"peek\":\"" + h.peek + EndOfText(h)))))
  {
    hide Decimal, EndOfText;
    EndOfTextIs(h);
    var l, v := LABELS, Values(h);
    assert Interleave(l[4..], v[4..]) == ",\"peek\":\"" + h.peek + Interleave(l[5..], v[5..]);
    assert Interleave(l[3..], v[3..]) == ",\"views\":" + Decimal(h.views) + Interleave(l[4..], v[4..]);
    assert Interleave(l[2..], v[2..]) == "\",\"ttl\":" + Decimal(h.ttl) + Interleave(l[3..], v[3..]);
    assert Interleave(l[1..], v[1..]) == ",\"id\":\"" + h.id + Interleave(l[2..], v[2..]);
  }

  function EndOfText(h: Header): string {
    "\",\"read\":\"" + h.read + ("\",\"revoke\":\"" + h.revoke + ("\",\"kdf\":\"" + h.kdf
    + ("\",\"salt\":\"" + h.salt + ("\",\"nonce\":\"" + h.nonce + "\"}"))))
  }

  lemma EndOfTextIs(h: Header)
    ensures Interleave(LABELS[5..], Values(h)[5..]) == EndOfText(h)
  {
    hide Decimal;
    var l, v := LABELS, Values(h);
    assert Interleave(l[10..], v[10..]) == "\"}";
    assert Interleave(l[9..], v[9..]) == "\",\"nonce\":\"" + h.nonce + "\"}";
    assert Interleave(l[8..], v[8..]) == "\",\"salt\":\"" + h.salt + Interleave(l[9..], v[9..]);
    assert Interleave(l[7..], v[7..]) == "\",\"kdf\":\"" + h.kdf + Interleave(l[8..], v[8..]);
    assert Interleave(l[6..], v[6..]) == "\",\"revoke\":\"" + h.revoke + Interleave(l[7..], v[7..]);
    assert Interleave(l[5..], v[5..]) == "\",\"read\":\"" + h.read + Interleave(l[6..], v[6..]);
  }

  predicate IsAscii(s: string) {
    forall i :: 0 <= i < |s| ==> s[i] < 128 as char
  }

  function AsciiBytes(s: string): (b: seq<byte>)
    requires IsAscii(s)
    ensures |b| == |s|
  {
    seq(|s|, i requires 0 <= i < |s| => s[i] as int)
  }

  /** These bytes are what TextEncoder and String::as_bytes give for ASCII text. */
  lemma AsciiIsUtf8(s: string)
    requires IsAscii(s)
    ensures AsciiBytes(s) == Utf8.Encode(Content.Ascii(s))
  {
    Utf8.EncodeAscii(Content.Ascii(s));
  }

  predicate Plain(h: Header) {
    && IsPlain(h.id) && IsPlain(h.peek) && IsPlain(h.read) && IsPlain(h.revoke)
    && IsPlain(h.kdf) && IsPlain(h.salt) && IsPlain(h.nonce)
  }

  lemma ValuesArePlain(h: Header)
    requires Plain(h)
    ensures forall i :: 0 <= i < 10 ==> IsPlain(Values(h)[i])
  {
    hide Decimal, IsPlain;
    DigitsArePlain(h.version);
    DigitsArePlain(h.ttl);
    DigitsArePlain(h.views);
  }

  lemma DigitsArePlain(n: nat)
    ensures IsPlain(Decimal(n))
  {
    assert AllDigits(Decimal(n));
  }

  lemma {:induction false} InterleaveIsAscii(labels: seq<string>, values: seq<string>)
    requires |labels| == |values| + 1
    requires forall i :: 0 <= i < |labels| ==> IsAscii(labels[i])
    requires forall i :: 0 <= i < |values| ==> IsAscii(values[i])
    ensures IsAscii(Interleave(labels, values))
  {
    if values != [] {
      InterleaveIsAscii(labels[1..], values[1..]);
    }
  }

  lemma HeaderTextIsAscii(h: Header)
    requires Plain(h)
    ensures IsAscii(HeaderText(h))
  {
    ValuesArePlain(h);
    InterleaveIsAscii(LABELS, Values(h));
  }

  lemma ValidIsPlain(h: Header)
    requires ValidHeader(h)
    ensures Plain(h)
  {
    hide IsToken, IsHash;
    TokenIsPlain(h.id, 32);
    TokenIsPlain(h.nonce, 24);
    if h.salt != "" {
      TokenIsPlain(h.salt, 16);
    }
    HashIsPlain(h.peek);
    HashIsPlain(h.read);
    HashIsPlain(h.revoke);
  }

  lemma HashIsPlain(s: string)
    requires IsHash(s)
    ensures IsPlain(s)
  {
  }

  function Serialize(h: Header): seq<byte>
    requires Plain(h)
  {
    HeaderTextIsAscii(h);
    AsciiBytes(HeaderText(h))
  }

  // A value ends where the next label begins.
  lemma CutAt(c: char, a: string, b: string, x: string, y: string)
    requires c !in a && c !in b && x != [] && y != [] && x[0] == c && y[0] == c
    requires a + x == b + y
    ensures a == b && x == y
  {
    assert (a + x)[|a|] == c && (b + y)[|b|] == c;
    assert |a| == |b|;
    assert a == (a + x)[..|a|] && b == (b + y)[..|b|];
    assert x == (a + x)[|a|..] && y == (b + y)[|b|..];
  }

  lemma {:induction false} InterleaveInjective(labels: seq<string>, v: seq<string>, w: seq<string>)
    requires |labels| == |v| + 1 == |w| + 1
    requires forall i :: 1 <= i <= |v| ==> labels[i] != [] && labels[i][0] !in v[i - 1] && labels[i][0] !in w[i - 1]
    requires Interleave(labels, v) == Interleave(labels, w)
    ensures v == w
  {
    if v != [] {
      var x, y := Interleave(labels[1..], v[1..]), Interleave(labels[1..], w[1..]);
      assert labels[0] + v[0] + x == labels[0] + (v[0] + x) && labels[0] + w[0] + y == labels[0] + (w[0] + y);
      assert v[0] + x == Interleave(labels, v)[|labels[0]|..] && w[0] + y == Interleave(labels, w)[|labels[0]|..];
      CutAt(labels[1][0], v[0], w[0], x, y);
      InterleaveInjective(labels[1..], v[1..], w[1..]);
    }
  }

  /** Different headers have different serializations. */
  lemma SerializeInjective(g: Header, h: Header)
    requires Plain(g) && Plain(h) && Serialize(g) == Serialize(h)
    ensures g == h
  {
    HeaderTextIsAscii(g);
    HeaderTextIsAscii(h);
    var s, t := HeaderText(g), HeaderText(h);
    forall i | 0 <= i < |s| ensures s[i] == t[i] {
      assert Serialize(g)[i] == Serialize(h)[i];
    }
    assert s == t;
    SameValues(g, h);
  }

  lemma SameValues(g: Header, h: Header)
    requires Plain(g) && Plain(h) && HeaderText(g) == HeaderText(h)
    ensures g == h
  {
    var v, w := Values(g), Values(h);
    ValuesArePlain(g);
    ValuesArePlain(h);
    forall i | 1 <= i <= 10 ensures LABELS[i] != [] && LABELS[i][0] !in v[i - 1] && LABELS[i][0] !in w[i - 1] {
      assert IsPlain(v[i - 1]) && IsPlain(w[i - 1]);
      assert LABELS[i][0] == '"' || LABELS[i][0] == ',';
    }
    InterleaveInjective(LABELS, v, w);
    assert v[0] == w[0] && v[1] == w[1] && v[2] == w[2] && v[3] == w[3] && v[4] == w[4];
    assert v[5] == w[5] && v[6] == w[6] && v[7] == w[7] && v[8] == w[8] && v[9] == w[9];
    ValueOfDecimal(g.version);
    ValueOfDecimal(h.version);
    ValueOfDecimal(g.ttl);
    ValueOfDecimal(h.ttl);
    ValueOfDecimal(g.views);
    ValueOfDecimal(h.views);
  }

  function Total(parts: seq<string>): nat {
    if parts == [] then 0 else |parts[0]| + Total(parts[1..])
  }

  lemma {:induction false} InterleaveLength(labels: seq<string>, values: seq<string>)
    requires |labels| == |values| + 1
    ensures |Interleave(labels, values)| == Total(labels) + Total(values)
  {
    if values != [] {
      InterleaveLength(labels[1..], values[1..]);
    } else {
      assert Total(labels) == |labels[0]| + Total(labels[1..]);
    }
  }

  lemma HeaderFits(h: Header)
    requires ValidHeader(h)
    ensures Plain(h) && 1 <= |Serialize(h)| <= 800
  {
    hide Interleave, ValidHeader, Plain, Values, Total;
    ValidIsPlain(h);
    ValuesAreShort(h);
    LabelsAreShort();
    InterleaveLength(LABELS, Values(h));
    TotalAtMost(LABELS, 13);
    TotalAtMost(Values(h), 64);
    HeaderTextLength(h);
  }

  lemma HeaderTextLength(h: Header)
    requires Plain(h)
    ensures |Serialize(h)| == |Interleave(LABELS, Values(h))| > 0
  {
    HeaderTextIsAscii(h);
    assert Interleave(LABELS, Values(h))[0] == '{';
  }

  lemma LabelsAreShort()
    ensures |LABELS| == 11 && forall i :: 0 <= i < 11 ==> |LABELS[i]| <= 13
  {
  }

  lemma ValuesAreShort(h: Header)
    requires ValidHeader(h)
    ensures forall i :: 0 <= i < 10 ==> |Values(h)[i]| <= 64
  {
    hide IsToken, IsHash, Decimal, IsPlain;
    TokenIsPlain(h.id, 32);
    TokenIsPlain(h.nonce, 24);
    if h.kdf == "argon2id" {
      TokenIsPlain(h.salt, 16);
    }
    HashLength(h.peek);
    HashLength(h.read);
    HashLength(h.revoke);
    SixDigits();
    DecimalLength(h.version, 6);
    DecimalLength(h.ttl, 6);
    DecimalLength(h.views, 6);
  }

  lemma HashLength(s: string)
    requires IsHash(s)
    ensures |s| == 64
  {
  }

  lemma SixDigits()
    ensures Pow10(6) == 1000000
  {
  }

  lemma {:induction false} TotalAtMost(parts: seq<string>, most: nat)
    requires forall i :: 0 <= i < |parts| ==> |parts[i]| <= most
    ensures Total(parts) <= |parts| * most
  {
    if parts != [] {
      TotalAtMost(parts[1..], most);
    }
  }

  // ---- The JSON libraries -----------------------------------------------------------------------

  // The member names of a header object; any other name is Unknown.
  datatype Member = Version | Id | Ttl | Views | Peek | Read | Revoke | Kdf | Salt | Nonce | Unknown(name: string)

  datatype Json = Null | Boolean(b: bool) | Number(n: real) | String(s: string) | Array | Object(fields: map<Member, Json>)

  // JSON.parse on the client; serde_json's struct reader and writer on the server.
  datatype Libraries = Libraries(
    parse: Utf8.Text -> Option<Json>,
    read: seq<byte> -> Option<Header>,
    write: Header -> seq<byte>)

  function FieldsOf(h: Header): map<Member, Json> {
    map[Version := Number(h.version as real), Id := String(h.id), Ttl := Number(h.ttl as real),
        Views := Number(h.views as real), Peek := String(h.peek), Read := String(h.read),
        Revoke := String(h.revoke), Kdf := String(h.kdf), Salt := String(h.salt), Nonce := String(h.nonce)]
  }

  // ASCII bytes and the string they decode to have the same code values.
  function SameText(b: seq<byte>): Utf8.Text {
    b
  }

  // All that is assumed: on the serialization of a valid header the readers return it and the
  // server's writer reproduces it.
  ghost predicate Lawful(lib: Libraries) {
    forall h: Header :: ValidHeader(h) && Plain(h) ==>
      && lib.parse(SameText(Serialize(h))) == Some(Object(FieldsOf(h)))
      && lib.read(Serialize(h)) == Some(h)
      && lib.write(h) == Serialize(h)
  }

  /** The assumptions are consistent. */
  lemma LawsHaveAModel()
    ensures exists lib: Libraries :: Lawful(lib)
  {
    var lib := Libraries(t => ModelParse(t), b => ModelRead(b), h => if ValidHeader(h) && Plain(h) then Serialize(h) else []);
    forall h: Header | ValidHeader(h) && Plain(h)
      ensures ModelParse(SameText(Serialize(h))) == Some(Object(FieldsOf(h))) && ModelRead(Serialize(h)) == Some(h)
    {
      ModelReads(h);
    }
    assert Lawful(lib);
  }

  ghost predicate IsSerialization(b: seq<byte>, h: Header) {
    ValidHeader(h) && Plain(h) && Serialize(h) == b
  }

  ghost function ModelRead(b: seq<byte>): Option<Header> {
    if exists h :: IsSerialization(b, h) then
      var h :| IsSerialization(b, h);
      Some(h)
    else None
  }

  ghost function ModelParse(t: Utf8.Text): Option<Json> {
    if exists h: Header :: ValidHeader(h) && Plain(h) && SameText(Serialize(h)) == t then
      var h: Header :| ValidHeader(h) && Plain(h) && SameText(Serialize(h)) == t;
      Some(Object(FieldsOf(h)))
    else None
  }

  lemma ModelReads(h: Header)
    requires ValidHeader(h) && Plain(h)
    ensures ModelParse(SameText(Serialize(h))) == Some(Object(FieldsOf(h))) && ModelRead(Serialize(h)) == Some(h)
  {
    hide ValidHeader, Plain, Serialize, FieldsOf;
    assert IsSerialization(Serialize(h), h);
    forall g: Header | ValidHeader(g) && Plain(g) && Serialize(g) == Serialize(h) ensures g == h {
      SerializeInjective(g, h);
    }
  }

  // ---- The client's parsers -------------------------------------------------------------------

  const HEADER_FIELDS: set<Member> := {Version, Id, Ttl, Views, Peek, Read, Revoke, Kdf, Salt, Nonce}

  predicate IsSafeInteger(n: real) {
    n.Floor as real == n && -9007199254740991.0 <= n <= 9007199254740991.0
  }

  // shared/encoding.ts validatePolicy
  predicate ValidPolicy(ttl: real, views: real) {
    && IsSafeInteger(ttl) && 60.0 <= ttl <= 604800.0
    && IsSafeInteger(views) && 1.0 <= views <= 100.0
  }

  // The type and value checks of parseHeader on the decoded object.
  function HeaderOfFields(f: map<Member, Json>): Option<Header> {
    if f.Keys != HEADER_FIELDS then None
    else
      match (f[Version], f[Id], f[Ttl], f[Views], f[Peek], f[Read], f[Revoke], f[Kdf], f[Salt], f[Nonce])
      case (Number(version), String(id), Number(ttl), Number(views), String(peek), String(read), String(revoke),
            String(kdf), String(salt), String(nonce)) =>
        if || version != 1.0
           || !IsHash(peek) || !IsHash(read) || !IsHash(revoke)
           || (kdf != "none" && kdf != "argon2id")
           || Base64Url.FromBase64Url(id, Some(32), 32).None?
           || !ValidPolicy(ttl, views)
           || Base64Url.FromBase64Url(nonce, Some(24), 24).None?
           || (if kdf == "none" then salt != "" else salt == "")
           || (kdf == "argon2id" && Base64Url.FromBase64Url(salt, Some(16), 16).None?)
        then None
        else Some(Header(1, id, ttl.Floor, views.Floor, peek, read, revoke, kdf, salt, nonce))
      case _ => None
  }

  lemma HeaderOfFieldsIsValid(f: map<Member, Json>)
    requires HeaderOfFields(f).Some?
    ensures ValidHeader(HeaderOfFields(f).value) && Plain(HeaderOfFields(f).value)
  {
    hide Base64Url.FromBase64Url, Base64Url.Base64Bytes, IsHash, Plain;
    var h := HeaderOfFields(f).value;
    TokenOnClient(h.id, 32);
    TokenOnClient(h.nonce, 24);
    TokenOnClient(h.salt, 16);
    ValidIsPlain(h);
  }

  lemma HeaderOfFieldsInverse(h: Header)
    requires ValidHeader(h)
    ensures HeaderOfFields(FieldsOf(h)) == Some(h)
  {
    hide Base64Url.FromBase64Url, Base64Url.Base64Bytes, IsHash;
    TokenOnClient(h.id, 32);
    TokenOnClient(h.nonce, 24);
    TokenOnClient(h.salt, 16);
    if h.kdf == "argon2id" { TokenIsPlain(h.salt, 16); }
    var f := FieldsOf(h);
    assert f.Keys == HEADER_FIELDS;
    assert (h.ttl as real).Floor == h.ttl && (h.views as real).Floor == h.views;
    assert ValidPolicy(h.ttl as real, h.views as real);
  }

  // shared/encoding.ts parseHeader
  function ParseHeader(lib: Libraries, bytes: seq<byte>): Option<Header> {
    if |bytes| < 1 || |bytes| > MAX_HEADER_BYTES then None
    else
      match Utf8.Decode(bytes)
      case None => None
      case Some(text) =>
        match lib.parse(text)
        case Some(Object(fields)) =>
          (match HeaderOfFields(fields)
           case None => None
           case Some(h) =>
             HeaderOfFieldsIsValid(fields);
             if SameText(Serialize(h)) != text then None else Some(h))
        case _ => None
  }

  lemma AsciiDecodes(h: Header)
    requires Plain(h)
    ensures Utf8.Decode(Serialize(h)) == Some(SameText(Serialize(h)))
  {
    HeaderTextIsAscii(h);
    var t := SameText(Serialize(h));
    hide Serialize;
    assert Utf8.IsAscii(t) by { SerializationIsAscii(h); }
    Utf8.EncodeAscii(t);
    assert Utf8.Encode(t) == Serialize(h);
    Utf8.DecodeEncode(t);
  }

  lemma SerializationIsAscii(h: Header)
    requires Plain(h)
    ensures forall i :: 0 <= i < |Serialize(h)| ==> Serialize(h)[i] < 0x80
  {
    HeaderTextIsAscii(h);
  }

  /** parseHeader accepts exactly the serializations of valid headers. */
  lemma ParseHeaderAccepts(lib: Libraries, bytes: seq<byte>, h: Header)
    requires Lawful(lib)
    ensures ParseHeader(lib, bytes) == Some(h) <==> IsSerialization(bytes, h)
  {
    hide Utf8.Decode, HeaderOfFields, Serialize, FieldsOf, Plain, ValidHeader;
    if IsSerialization(bytes, h) {
      HeaderFits(h);
      AsciiDecodes(h);
      HeaderOfFieldsInverse(h);
    }
    if ParseHeader(lib, bytes) == Some(h) {
      var text := Utf8.Decode(bytes).value;
      HeaderOfFieldsIsValid(lib.parse(text).value.fields);
      AsciiDecodes(h);
      Utf8.EncodeDecode(bytes);
      Utf8.EncodeDecode(Serialize(h));
    }
  }

  datatype Parsed = Parsed(header: Header, headerBytes: seq<byte>, ciphertext: seq<byte>)

  // shared/encoding.ts parsePacket
  function ParsePacket(lib: Libraries, packet: seq<byte>): Option<Parsed> {
    if || |packet| < 8 || |packet| > MAX_PACKET_BYTES
       || packet[0] != 69 || packet[1] != 82 || packet[2] != 83 || packet[3] != 49
    then None
    else
      var length := U32At(packet, 4);
      if length < 1 || length > MAX_HEADER_BYTES || |packet| < 8 + length + 4112 then None
      else
        var headerBytes := packet[8..8 + length];
        var ciphertext := packet[8 + length..];
        if (|ciphertext| - 16) % 4096 != 0 then None
        else
          match ParseHeader(lib, headerBytes)
          case None => None
          case Some(header) => Some(Parsed(header, headerBytes, ciphertext))
  }

  // ---- The server's parser ----------------------------------------------------------------------

  datatype ApiError = TooLarge | InvalidRequest

  datatype ServerPacket = ServerPacket(bytes: seq<byte>, headerBytes: seq<byte>, header: Header)

  // server/src/protocol.rs parse_packet
  function ParsePacketOnServer(lib: Libraries, bytes: seq<byte>): Result<ServerPacket, ApiError> {
    if |bytes| > MAX_PACKET_BYTES then Err(TooLarge)
    else if |bytes| < 8 || bytes[..4] != ERS1 then Err(InvalidRequest)
    else
      var length := U32At(bytes, 4);
      if !(1 <= length <= MAX_HEADER_BYTES) || |bytes| < 8 + length + 4112 then Err(InvalidRequest)
      else
        var cipherLength := |bytes| - 8 - length;
        if (cipherLength - 16) % 4096 != 0 then Err(InvalidRequest)
        else
          var headerBytes := bytes[8..8 + length];
          match lib.read(headerBytes)
          case None => Err(InvalidRequest)
          case Some(header) =>
            if lib.write(header) != headerBytes then Err(InvalidRequest)
            else if || header.version != 1
                    || Base64Url.Base64Bytes(header.id, 32).None?
                    || !(60 <= header.ttl <= 604800)
                    || !(1 <= header.views <= 100)
                    || !IsHash(header.peek) || !IsHash(header.read) || !IsHash(header.revoke)
                    || Base64Url.Base64Bytes(header.nonce, 24).None?
                    || (if header.kdf == "none" then header.salt != ""
                        else if header.kdf == "argon2id" then Base64Url.Base64Bytes(header.salt, 16).None?
                        else true)
            then Err(InvalidRequest)
            else Ok(ServerPacket(bytes, headerBytes, header))
  }

  // ---- One language -------------------------------------------------------------------------------

  // The reference: magic, big-endian header length, canonical header, padded ciphertext with tag.
  ghost predicate IsPacket(packet: seq<byte>, h: Header, ciphertext: seq<byte>) {
    && ValidHeader(h) && Plain(h)
    && packet == [69, 82, 83, 49] + Be32(|Serialize(h)|) + Serialize(h) + ciphertext
    && |ciphertext| >= 4112 && (|ciphertext| - 16) % 4096 == 0
    && |packet| <= 67141632
  }

  // What both parsers check before they look at the header.
  ghost predicate IsFramed(packet: seq<byte>, headerBytes: seq<byte>, ciphertext: seq<byte>) {
    && packet == [69, 82, 83, 49] + Be32(|headerBytes|) + headerBytes + ciphertext
    && 1 <= |headerBytes| <= 2048
    && |ciphertext| >= 4112 && (|ciphertext| - 16) % 4096 == 0
    && |packet| <= 67141632
  }

  // The same, as the parsers read it.
  ghost predicate ReadsAsFrame(packet: seq<byte>, headerBytes: seq<byte>, ciphertext: seq<byte>) {
    && 8 <= |packet| <= MAX_PACKET_BYTES && packet[..4] == ERS1
    && 1 <= U32At(packet, 4) <= MAX_HEADER_BYTES && |packet| >= 8 + U32At(packet, 4) + 4112
    && (|packet| - 8 - U32At(packet, 4) - 16) % 4096 == 0
    && headerBytes == packet[8..8 + U32At(packet, 4)] && ciphertext == packet[8 + U32At(packet, 4)..]
  }

  lemma FrameRead(packet: seq<byte>, headerBytes: seq<byte>, ciphertext: seq<byte>)
    ensures IsFramed(packet, headerBytes, ciphertext) <==> ReadsAsFrame(packet, headerBytes, ciphertext)
  {
    hide Be32, U32At;
    if IsFramed(packet, headerBytes, ciphertext) {
      Be32RoundTrip(|headerBytes|, ERS1, headerBytes + ciphertext);
      assert packet == ERS1 + Be32(|headerBytes|) + (headerBytes + ciphertext);
    }
    if ReadsAsFrame(packet, headerBytes, ciphertext) {
      Be32Inverse(packet, 4);
      assert packet == packet[..4] + packet[4..8] + headerBytes + ciphertext;
    }
  }

  lemma ClientAccepts(lib: Libraries, packet: seq<byte>, p: Parsed)
    requires Lawful(lib)
    ensures ParsePacket(lib, packet) == Some(p)
       <==> IsPacket(packet, p.header, p.ciphertext) && p.headerBytes == Serialize(p.header)
  {
    hide ParseHeader, Serialize, ValidHeader, Plain, Lawful, U32At, Be32;
    FrameRead(packet, p.headerBytes, p.ciphertext);
    ParseHeaderAccepts(lib, p.headerBytes, p.header);
    if ValidHeader(p.header) { HeaderFits(p.header); }
    assert |packet| >= 4 ==> packet[..4] == [packet[0], packet[1], packet[2], packet[3]];
  }

  lemma ServerAccepts(lib: Libraries, packet: seq<byte>, p: ServerPacket)
    requires Lawful(lib)
    ensures ParsePacketOnServer(lib, packet) == Ok(p)
       <==> p.bytes == packet && |p.headerBytes| + 8 <= |packet| && Plain(p.header) && p.headerBytes == Serialize(p.header)
            && IsPacket(packet, p.header, packet[8 + |p.headerBytes|..])
    ensures ParsePacketOnServer(lib, packet) == Err(TooLarge) <==> |packet| > 67141632
  {
    hide Serialize, Plain, U32At, Be32, IsHash, Base64Url.Base64Bytes;
    if ValidHeader(p.header) { HeaderFits(p.header); }
    if 8 + |p.headerBytes| <= |packet| {
      FrameRead(packet, p.headerBytes, packet[8 + |p.headerBytes|..]);
    }
  }

  /** The two implementations accept the same byte strings and read the same header from them. */
  lemma ParsersAgree(lib: Libraries, packet: seq<byte>)
    requires Lawful(lib)
    ensures ParsePacket(lib, packet).Some? <==> ParsePacketOnServer(lib, packet).Ok?
    ensures ParsePacket(lib, packet).Some? ==>
              && ParsePacket(lib, packet).value.header == ParsePacketOnServer(lib, packet).value.header
              && ParsePacket(lib, packet).value.headerBytes == ParsePacketOnServer(lib, packet).value.headerBytes
  {
    var c, s := ParsePacket(lib, packet), ParsePacketOnServer(lib, packet);
    hide ParsePacket, ParsePacketOnServer;
    if c.Some? {
      ClientAccepts(lib, packet, c.value);
      ServerAccepts(lib, packet, ServerPacket(packet, c.value.headerBytes, c.value.header));
    }
    if s.Ok? {
      ServerAccepts(lib, packet, s.value);
      ClientAccepts(lib, packet, Parsed(s.value.header, s.value.headerBytes, packet[8 + |s.value.headerBytes|..]));
    }
  }
}
