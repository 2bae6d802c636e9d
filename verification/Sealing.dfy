/** Creating, preparing and decrypting a note. The cryptographic primitives are symbolic: all that
    is assumed of them is their lengths and that decryption inverts encryption. */
module Sealing {
  import opened Wrappers
  import opened Bytes
  import opened Base64Url
  import opened Packet
  import Utf8
  import Content

  const MAX_PASSPHRASE_BYTES: nat := 1024

  datatype Primitives = Primitives(
    sha256: seq<byte> -> seq<byte>,
    hkdf: (seq<byte>, seq<byte>, seq<byte>) -> seq<byte>,
    argon2id: (seq<byte>, seq<byte>) -> seq<byte>,
    // (message, associated data, nonce, key)
    encrypt: (seq<byte>, seq<byte>, seq<byte>, seq<byte>) -> seq<byte>,
    decrypt: (seq<byte>, seq<byte>, seq<byte>, seq<byte>) -> Option<seq<byte>>)

  ghost predicate LawfulPrimitives(p: Primitives) {
    && (forall b :: |p.sha256(b)| == 32)
    && (forall ikm, salt, info :: |p.hkdf(ikm, salt, info)| == 32)
    && (forall password, salt :: |p.argon2id(password, salt)| == 32)
    && (forall m, ad, nonce, key :: |p.encrypt(m, ad, nonce, key)| == |m| + 16)
    && (forall m, ad, nonce, key :: p.decrypt(p.encrypt(m, ad, nonce, key), ad, nonce, key) == Some(m))
  }

  datatype Environment = Environment(lib: Libraries, uc: Content.Unicode, crypto: Primitives)

  ghost predicate LawfulEnvironment(env: Environment) {
    Packet.Lawful(env.lib) && Content.Lawful(env.uc) && LawfulPrimitives(env.crypto)
  }

  datatype Error =
    | InvalidPolicy
    | InvalidPassphrase
    | WrongPassphrase
    | InvalidLink
    | InvalidPackage
    | DecryptionFailed
    | ContentError(e: Content.Error)

  // ---- Hexadecimal digests ------------------------------------------------------------------

  function HexDigit(n: nat): char
    requires n < 16
  {
    if n < 10 then (n + 48) as char else (n + 87) as char
  }

  function Hex(b: seq<byte>): (s: string)
    ensures |s| == 2 * |b|
  {
    seq(2 * |b|, i requires 0 <= i < 2 * |b| => HexDigit(if i % 2 == 0 then b[i / 2] / 16 else b[i / 2] % 16))
  }

  /** The high half of a byte comes first; digits count from 0 to f. */
  lemma HexIs(b: seq<byte>, i: nat)
    requires i < |b|
    ensures Hex(b)[2 * i] == "0123456789abcdef"[b[i] / 16] && Hex(b)[2 * i + 1] == "0123456789abcdef"[b[i] % 16]
  {
    assert (2 * i) / 2 == i && (2 * i + 1) / 2 == i && (2 * i) % 2 == 0 && (2 * i + 1) % 2 == 1;
  }

  lemma HexInjective(a: seq<byte>, b: seq<byte>)
    requires Hex(a) == Hex(b)
    ensures a == b
  {
    forall i | 0 <= i < |a| ensures a[i] == b[i] {
      assert Hex(a)[2 * i] == Hex(b)[2 * i] && Hex(a)[2 * i + 1] == Hex(b)[2 * i + 1];
      assert a[i] == a[i] / 16 * 16 + a[i] % 16 && b[i] == b[i] / 16 * 16 + b[i] % 16;
    }
  }

  function HexValue(c: char): nat {
    if '0' <= c <= '9' then c as int - 48 else if 'a' <= c <= 'f' then c as int - 87 else 0
  }

  function FromHex(s: string): seq<nat> {
    seq(|s| / 2, i requires 0 <= i < |s| / 2 => HexValue(s[2 * i]) * 16 + HexValue(s[2 * i + 1]))
  }

  lemma HexIsHash(b: seq<byte>)
    requires |b| == 32
    ensures IsHash(Hex(b))
  {
  }

  /** The digests of a header are exactly the hexadecimal texts of 32 bytes. */
  lemma HashesAreHex(s: string)
    ensures IsHash(s) <==> exists b: seq<byte> :: |b| == 32 && s == Hex(b)
  {
    if IsHash(s) {
      var b: seq<byte> := seq(32, i requires 0 <= i < 32 => HexValue(s[2 * i]) * 16 + HexValue(s[2 * i + 1]));
      forall k | 0 <= k < 64 ensures Hex(b)[k] == s[k] {
        var i := k / 2;
        assert k == 2 * i || k == 2 * i + 1;
        assert IsHexDigit(s[2 * i]) && IsHexDigit(s[2 * i + 1]);
        assert b[i] / 16 == HexValue(s[2 * i]) && b[i] % 16 == HexValue(s[2 * i + 1]);
      }
      assert s == Hex(b);
    }
  }

  // shared/index.ts sameHex: both well formed, and equal as bytes.
  predicate SameHex(left: string, right: string) {
    IsHash(left) && IsHash(right) && FromHex(left) == FromHex(right)
  }

  lemma SameDigits(a: char, b: char, c: char, d: char)
    requires IsHexDigit(a) && IsHexDigit(b) && IsHexDigit(c) && IsHexDigit(d)
    requires HexValue(a) * 16 + HexValue(b) == HexValue(c) * 16 + HexValue(d)
    ensures a == c && b == d
  {
  }

  lemma SameHexIsEquality(left: string, right: string)
    ensures SameHex(left, right) <==> IsHash(left) && left == right
  {
    if SameHex(left, right) {
      forall i | 0 <= i < 32 ensures left[2 * i] == right[2 * i] && left[2 * i + 1] == right[2 * i + 1] {
        assert FromHex(left)[i] == FromHex(right)[i];
        SameDigits(left[2 * i], left[2 * i + 1], right[2 * i], right[2 * i + 1]);
      }
      hide HexValue, FromHex, IsHash;
      forall k | 0 <= k < 64 ensures left[k] == right[k] {
        var i := k / 2;
        assert k == 2 * i || k == 2 * i + 1;
      }
    }
  }

  function Hash(p: Primitives, b: seq<byte>): string {
    Hex(p.sha256(b))
  }

  // ---- Keys and capabilities --------------------------------------------------------------------

  const PEEK_SALT: seq<byte> := AsciiBytes("erase.to/v1/peek:")
  const PEEK_INFO: seq<byte> := AsciiBytes("erase.to/v1/peek")
  const CONTENT_SALT: seq<byte> := AsciiBytes("erase.to/v1/content:")
  const AEAD_INFO: seq<byte> := AsciiBytes("erase.to/v1/aead:")
  const READ_INFO: seq<byte> := AsciiBytes("erase.to/v1/read:")

  // shared/index.ts validateId; the identifier as bytes
  function ValidateId(id: string): Option<seq<byte>> {
    if FromBase64Url(id, Some(32), 32).None? then None
    else
      IdIsAscii(id);
      Some(AsciiBytes(id))
  }

  // shared/index.ts peekBytes
  function PeekBytes(p: Primitives, secret: string, id: string): Option<seq<byte>> {
    match (ValidateId(id), FromBase64Url(secret, Some(32), 32))
    case (Some(idBytes), Some(master)) => Some(p.hkdf(master, PEEK_SALT + idBytes, PEEK_INFO))
    case _ => None
  }

  lemma IdIsAscii(id: string)
    requires FromBase64Url(id, Some(32), 32).Some?
    ensures IsAscii(id)
  {
    hide FromBase64Url, Base64Bytes;
    TokenOnClient(id, 32);
    TokenIsPlain(id, 32);
  }

  datatype Keys = Keys(key: seq<byte>, read: seq<byte>)

  // The IKM and salt from which both content keys are derived.
  function DeriveKeys(p: Primitives, master: seq<byte>, passwordKey: seq<byte>, id: seq<byte>, kdf: seq<byte>): Keys {
    var material := master + passwordKey;
    var salt := CONTENT_SALT + id;
    Keys(p.hkdf(material, salt, AEAD_INFO + kdf),
         p.hkdf(material, salt, READ_INFO + kdf))
  }

  const ZERO_KEY: seq<byte> := seq(32, i => 0)

  // shared/index.ts contentKeys
  function ContentKeys(p: Primitives, secret: string, id: string, kdf: string, salt: string, passphrase: Utf8.Text)
    : Result<Keys, Error>
    requires IsAscii(id) && IsAscii(kdf)
  {
    if |passphrase| > MAX_PASSPHRASE_BYTES then Err(InvalidPassphrase)
    else
      match (FromBase64Url(secret, Some(32), 32), Utf8.EncodeText(passphrase))
      case (Some(master), Some(password)) =>
        if |password| > MAX_PASSPHRASE_BYTES then Err(InvalidPassphrase)
        else if kdf == "argon2id" then
          if password == [] then Err(WrongPassphrase)
          else
            (match FromBase64Url(salt, Some(16), 16)
             case None => Err(InvalidPackage)
             case Some(saltBytes) =>
               Ok(DeriveKeys(p, master, p.argon2id(password, saltBytes), AsciiBytes(id), AsciiBytes(kdf))))
        else Ok(DeriveKeys(p, master, ZERO_KEY, AsciiBytes(id), AsciiBytes(kdf)))
      case _ => Err(InvalidPackage)
  }

  // ---- create --------------------------------------------------------------------------------------

  datatype Options = Options(ttl: real, views: real, passphrase: Utf8.Text)

  // randombytes_buf for the master secret, the revoke capability, the identifier, the salt and the
  // nonce; padding is what getRandomValues leaves behind the envelope.
  datatype Random = Random(master: seq<byte>, revoke: seq<byte>, id: seq<byte>, salt: seq<byte>, nonce: seq<byte>)

  predicate RightLengths(r: Random) {
    |r.master| == 32 && |r.revoke| == 32 && |r.id| == 32 && |r.salt| == 16 && |r.nonce| == 24
  }

  datatype Created = Created(packet: seq<byte>, id: string, secret: string, revokeToken: string, header: Header)

  // The header before the read hash is known.
  function DraftHeader(p: Primitives, options: Options, random: Random, peek: seq<byte>): Header
    requires ValidPolicy(options.ttl, options.views)
  {
    Header(1, Canonical(random.id), options.ttl.Floor, options.views.Floor, Hash(p, peek), "",
           Hash(p, random.revoke), if options.passphrase != [] then "argon2id" else "none",
           if options.passphrase != [] then Canonical(random.salt) else "", Canonical(random.nonce))
  }

  lemma TokenOf(b: seq<byte>, n: nat)
    requires |b| == n > 0
    ensures FromBase64Url(Canonical(b), Some(n), n) == Some(b) && Base64Bytes(Canonical(b), n) == Some(b)
    ensures IsToken(Canonical(b), n) && IsAscii(Canonical(b))
  {
    ClientAcceptsCanonical(Canonical(b), Some(n), n, b);
    ServerAcceptsCanonical(Canonical(b), n, b);
    TokenIsPlain(Canonical(b), n);
  }

  lemma DraftIsSound(p: Primitives, options: Options, random: Random, peek: seq<byte>)
    requires ValidPolicy(options.ttl, options.views) && RightLengths(random)
    ensures var draft := DraftHeader(p, options, random, peek); IsAscii(draft.id) && IsAscii(draft.kdf)
  {
    hide Canonical, FromBase64Url, Base64Bytes;
    TokenOf(random.id, 32);
  }

  lemma SealedHeaderIsValid(p: Primitives, options: Options, random: Random, peek: seq<byte>, read: seq<byte>)
    requires LawfulPrimitives(p) && ValidPolicy(options.ttl, options.views) && RightLengths(random)
    ensures ValidHeader(DraftHeader(p, options, random, peek).(read := Hash(p, read)))
  {
    hide Canonical, FromBase64Url, Base64Bytes, IsToken, Hex, IsHash;
    TokenOf(random.id, 32);
    TokenOf(random.salt, 16);
    TokenOf(random.nonce, 24);
    HexIsHash(p.sha256(peek));
    HexIsHash(p.sha256(read));
    HexIsHash(p.sha256(random.revoke));
  }

  // shared/index.ts create, from the packed content on. The size check is the last one there.
  function Seal(env: Environment, clear: seq<byte>, options: Options, random: Random): Result<Created, Error>
    requires LawfulPrimitives(env.crypto) && ValidPolicy(options.ttl, options.views) && RightLengths(random)
  {
    var p := env.crypto;
    var secret, id := Canonical(random.master), Canonical(random.id);
    match PeekBytes(p, secret, id)
    case None => Err(InvalidPackage)
    case Some(peek) =>
      var draft := DraftHeader(p, options, random, peek);
      DraftIsSound(p, options, random, peek);
      match ContentKeys(p, secret, id, draft.kdf, draft.salt, options.passphrase)
      case Err(e) => Err(e)
      case Ok(keys) =>
        var header := draft.(read := Hash(p, keys.read));
        SealedHeaderIsValid(p, options, random, peek, keys.read);
        ValidIsPlain(header);
        var headerBytes := Serialize(header);
        var ciphertext := p.encrypt(clear, headerBytes, random.nonce, keys.key);
        var packet := ERS1 + Be32(|headerBytes|) + headerBytes + ciphertext;
        if |packet| > MAX_PACKET_BYTES then Err(InvalidPackage)
        else Ok(Created(packet, id, secret, Canonical(random.revoke), header))
  }

  // Whether create gets as far as sealing.
  function Admit(env: Environment, input: Content.Content, options: Options): Option<Error> {
    if !ValidPolicy(options.ttl, options.views) then Some(InvalidPolicy)
    else if |options.passphrase| > MAX_PASSPHRASE_BYTES then Some(InvalidPassphrase)
    else
      match Content.Prepare(env.uc, input)
      case Err(e) => Some(ContentError(e))
      case Ok(_) => None
  }

  function Padded(env: Environment, input: Content.Content, padding: nat -> byte): seq<byte>
    requires Content.Prepare(env.uc, input).Ok?
  {
    var plan := Content.Prepare(env.uc, input).value;
    var logical := Content.LogicalLength(plan);
    Content.PaddedLengthIsLeast(logical, 0);
    Content.Envelope(plan) + seq(Content.PaddedLength(logical) - logical, i requires 0 <= i => padding(logical + i))
  }

  function Create(env: Environment, input: Content.Content, options: Options, random: Random, padding: nat -> byte)
    : Result<Created, Error>
    requires LawfulPrimitives(env.crypto) && RightLengths(random)
  {
    match Admit(env, input, options)
    case Some(e) => Err(e)
    case None => Seal(env, Padded(env, input, padding), options, random)
  }

  // ---- prepareOpen and decrypt -----------------------------------------------------------------------

  datatype Prepared = Prepared(header: Header, headerBytes: seq<byte>, readToken: string, key: seq<byte>)

  lemma ParsedHeaderIsSound(lib: Libraries, bytes: seq<byte>)
    requires ParseHeader(lib, bytes).Some?
    ensures var h := ParseHeader(lib, bytes).value; ValidHeader(h) && IsAscii(h.id) && IsAscii(h.kdf)
  {
    hide HeaderOfFields, Utf8.Decode, Serialize, FromBase64Url, Base64Bytes, IsToken;
    var text := Utf8.Decode(bytes).value;
    HeaderOfFieldsIsValid(lib.parse(text).value.fields);
    TokenIsPlain(ParseHeader(lib, bytes).value.id, 32);
  }

  // shared/index.ts prepareOpen
  function PrepareOpen(env: Environment, headerBase64: string, secret: string, expectedId: string, passphrase: Utf8.Text)
    : Result<Prepared, Error>
  {
    match FromBase64Url(headerBase64, None, MAX_HEADER_BYTES)
    case None => Err(InvalidPackage)
    case Some(headerBytes) =>
      match ParseHeader(env.lib, headerBytes)
      case None => Err(InvalidPackage)
      case Some(header) =>
        if ValidateId(expectedId).None? || header.id != expectedId then Err(InvalidPackage)
        else
          match PeekBytes(env.crypto, secret, expectedId)
          case None => Err(InvalidPackage)
          case Some(peek) =>
            if !SameHex(Hash(env.crypto, peek), header.peek) then Err(InvalidLink)
            else
              ParsedHeaderIsSound(env.lib, headerBytes);
              match ContentKeys(env.crypto, secret, header.id, header.kdf, header.salt, passphrase)
              case Err(e) => Err(e)
              case Ok(keys) =>
                if !SameHex(Hash(env.crypto, keys.read), header.read)
                then Err(if header.kdf == "argon2id" then WrongPassphrase else InvalidLink)
                else Ok(Prepared(header, headerBytes, Canonical(keys.read), keys.key))
  }

  // shared/index.ts decrypt
  function Decrypt(env: Environment, packet: seq<byte>, prepared: Prepared): Result<Content.Content, Error> {
    match ParsePacket(env.lib, packet)
    case None => Err(InvalidPackage)
    case Some(parsed) =>
      if |prepared.key| != 32 || parsed.headerBytes != prepared.headerBytes then Err(InvalidPackage)
      else
        match FromBase64Url(parsed.header.nonce, Some(24), 24)
        case None => Err(InvalidPackage)
        case Some(nonce) =>
          match env.crypto.decrypt(parsed.ciphertext, parsed.headerBytes, nonce, prepared.key)
          case None => Err(DecryptionFailed)
          case Some(clear) =>
            match Content.Unpack(env.uc, clear)
            case Err(e) => Err(ContentError(e))
            case Ok(content) => Ok(content)
  }

  // server/src/protocol.rs token_hash
  function TokenHash(p: Primitives, token: string): Option<string> {
    match Base64Bytes(token, 32)
    case None => None
    case Some(b) => Some(Hash(p, b))
  }

  // ---- Theorems --------------------------------------------------------------------------------------------

  predicate PassphraseFits(passphrase: Utf8.Text) {
    && |passphrase| <= 1024
    && Utf8.WellFormed(passphrase)
    && |Utf8.Encode(passphrase)| <= 1024
  }

  lemma KeysExist(p: Primitives, random: Random, kdf: string, passphrase: Utf8.Text)
    requires RightLengths(random) && IsAscii(Canonical(random.id))
    requires kdf == if passphrase != [] then "argon2id" else "none"
    ensures var salt := if passphrase != [] then Canonical(random.salt) else "";
            ContentKeys(p, Canonical(random.master), Canonical(random.id), kdf, salt, passphrase).Ok?
            <==> PassphraseFits(passphrase)
  {
    hide FromBase64Url, Canonical, Base64Bytes, IsToken, DeriveKeys, Utf8.Decode, Utf8.WellFormed;
    TokenOf(random.master, 32);
    TokenOf(random.salt, 16);
    Utf8.EncodeTextAccepts(passphrase);
    if passphrase != [] {
      NotEmpty(passphrase);
    }
  }

  lemma NotEmpty(t: Utf8.Text)
    requires t != []
    ensures Utf8.Encode(t) != []
  {
  }

  lemma PeekExists(p: Primitives, random: Random)
    requires RightLengths(random)
    ensures PeekBytes(p, Canonical(random.master), Canonical(random.id)).Some?
  {
    hide FromBase64Url, Canonical, Base64Bytes, IsToken;
    TokenOf(random.master, 32);
    TokenOf(random.id, 32);
  }

  lemma PaddedIsSound(env: Environment, input: Content.Content, padding: nat -> byte)
    requires Content.Lawful(env.uc) && Content.Prepare(env.uc, input).Ok?
    ensures var clear := Padded(env, input, padding);
            && |clear| % 4096 == 0 && 4096 <= |clear| <= Content.MAX_PADDED_BYTES
            && Content.FilesNormalize(env.uc, input.files)
            && Content.Unpack(env.uc, clear) == Ok(Content.Normalized(env.uc, input))
  {
    hide Content.Prepare, Content.Unpack, Content.Envelope, Content.Normalized, Content.Lawful;
    var plan := Content.Prepare(env.uc, input).value;
    var logical := Content.LogicalLength(plan);
    Content.PaddedLengthIsLeast(logical, Content.MAX_PADDED_BYTES);
    var tail := seq(Content.PaddedLength(logical) - logical, i requires 0 <= i => padding(logical + i));
    Content.RoundTrip(env.uc, input, tail);
    assert Padded(env, input, padding) == Content.Envelope(plan) + tail;
  }

  // What a sealed note consists of.
  ghost predicate IsSealed(env: Environment, c: Created, clear: seq<byte>, passphrase: Utf8.Text, random: Random, keys: Keys) {
    var p := env.crypto;
    && RightLengths(random)
    && c.id == c.header.id == Canonical(random.id) && c.secret == Canonical(random.master)
    && c.revokeToken == Canonical(random.revoke) && c.header.nonce == Canonical(random.nonce)
    && ValidHeader(c.header) && Plain(c.header) && IsAscii(c.header.id) && IsAscii(c.header.kdf)
    && ContentKeys(p, c.secret, c.header.id, c.header.kdf, c.header.salt, passphrase) == Ok(keys)
    && PeekBytes(p, c.secret, c.id).Some? && c.header.peek == Hash(p, PeekBytes(p, c.secret, c.id).value)
    && c.header.read == Hash(p, keys.read) && c.header.revoke == Hash(p, random.revoke)
    && IsPacket(c.packet, c.header, p.encrypt(clear, Serialize(c.header), random.nonce, keys.key))
  }

  lemma SealedNote(env: Environment, clear: seq<byte>, options: Options, random: Random) returns (keys: Keys)
    requires LawfulPrimitives(env.crypto) && ValidPolicy(options.ttl, options.views) && RightLengths(random)
    requires |clear| % 4096 == 0 && 4096 <= |clear| <= Content.MAX_PADDED_BYTES
    ensures Seal(env, clear, options, random).Ok? <==> PassphraseFits(options.passphrase)
    ensures Seal(env, clear, options, random).Ok? ==>
              IsSealed(env, Seal(env, clear, options, random).value, clear, options.passphrase, random, keys)
  {
    hide FromBase64Url, Canonical, Base64Bytes, Serialize, ContentKeys, PeekBytes, Hex, ValidPolicy, ValidHeader, Plain,
         PassphraseFits, Be32;
    var p := env.crypto;
    var secret, id := Canonical(random.master), Canonical(random.id);
    PeekExists(p, random);
    var peek := PeekBytes(p, secret, id).value;
    var draft := DraftHeader(p, options, random, peek);
    DraftIsSound(p, options, random, peek);
    KeysExist(p, random, draft.kdf, options.passphrase);
    keys := Keys([], []);
    var derived := ContentKeys(p, secret, id, draft.kdf, draft.salt, options.passphrase);
    if derived.Ok? {
      keys := derived.value;
      var header := draft.(read := Hash(p, keys.read));
      SealedHeaderIsValid(p, options, random, peek, keys.read);
      HeaderFits(header);
    }
  }

  lemma KeysAreKeys(p: Primitives, secret: string, id: string, kdf: string, salt: string, passphrase: Utf8.Text)
    requires LawfulPrimitives(p) && IsAscii(id) && IsAscii(kdf)
    requires ContentKeys(p, secret, id, kdf, salt, passphrase).Ok?
    ensures var keys := ContentKeys(p, secret, id, kdf, salt, passphrase).value; |keys.key| == 32 && |keys.read| == 32
  {
    hide FromBase64Url, Utf8.EncodeText;
  }

  /** With another passphrase the preparation succeeds exactly when keys can be derived from it and
      their read hash is the one in the header; before that no request is made. */
  lemma PrepareSealed(env: Environment, c: Created, clear: seq<byte>, passphrase: Utf8.Text, random: Random, keys: Keys,
                      attempt: Utf8.Text)
    requires LawfulEnvironment(env) && IsSealed(env, c, clear, passphrase, random, keys)
    ensures var tried := ContentKeys(env.crypto, c.secret, c.header.id, c.header.kdf, c.header.salt, attempt);
            var prepared := PrepareOpen(env, Canonical(Serialize(c.header)), c.secret, c.id, attempt);
            && (prepared.Ok? <==> tried.Ok? && Hash(env.crypto, tried.value.read) == Hash(env.crypto, keys.read))
            && (prepared.Ok? ==> prepared.value == Prepared(c.header, Serialize(c.header), Canonical(tried.value.read), tried.value.key))
  {
    hide FromBase64Url, Canonical, Base64Bytes, Serialize, ContentKeys, PeekBytes, Hex, ValidHeader, Plain, ParseHeader,
         SameHex, IsHash, IsToken, IsPacket;
    HeaderFits(c.header);
    TokenOf(random.id, 32);
    ClientAcceptsCanonical(Canonical(Serialize(c.header)), None, MAX_HEADER_BYTES, Serialize(c.header));
    ParseHeaderAccepts(env.lib, Serialize(c.header), c.header);
    PrepareChecked(env, c.header, Canonical(Serialize(c.header)), c.secret, attempt, PeekBytes(env.crypto, c.secret, c.id).value,
                   keys.read);
  }

  // The comparisons of prepareOpen, once the header is decoded.
  lemma PrepareChecked(env: Environment, header: Header, headerBase64: string, secret: string, attempt: Utf8.Text,
                       peek: seq<byte>, read: seq<byte>)
    requires LawfulEnvironment(env) && Plain(header)
    requires FromBase64Url(headerBase64, None, MAX_HEADER_BYTES) == Some(Serialize(header))
    requires ParseHeader(env.lib, Serialize(header)) == Some(header)
    requires IsAscii(header.id) && IsAscii(header.kdf) && ValidateId(header.id).Some?
    requires PeekBytes(env.crypto, secret, header.id) == Some(peek)
    requires header.peek == Hash(env.crypto, peek) && header.read == Hash(env.crypto, read)
    ensures var tried := ContentKeys(env.crypto, secret, header.id, header.kdf, header.salt, attempt);
            var prepared := PrepareOpen(env, headerBase64, secret, header.id, attempt);
            && (prepared.Ok? <==> tried.Ok? && Hash(env.crypto, tried.value.read) == header.read)
            && (prepared.Ok? ==> prepared.value == Prepared(header, Serialize(header), Canonical(tried.value.read), tried.value.key))
  {
    var p := env.crypto;
    var tried := ContentKeys(p, secret, header.id, header.kdf, header.salt, attempt);
    hide FromBase64Url, Canonical, Serialize, ContentKeys, PeekBytes, Hex, ParseHeader, SameHex, IsHash, ValidateId;
    HexIsHash(p.sha256(peek));
    HexIsHash(p.sha256(read));
    SameHexIsEquality(header.peek, header.peek);
    if tried.Ok? {
      HexIsHash(p.sha256(tried.value.read));
      SameHexIsEquality(Hash(p, tried.value.read), header.read);
    }
  }

  lemma DecryptSealed(env: Environment, c: Created, clear: seq<byte>, passphrase: Utf8.Text, random: Random, keys: Keys)
    requires LawfulEnvironment(env) && IsSealed(env, c, clear, passphrase, random, keys)
    requires |clear| % 4096 == 0 && |clear| >= 4096
    ensures ParsePacket(env.lib, c.packet).Some? && ParsePacketOnServer(env.lib, c.packet).Ok?
    ensures ParsePacketOnServer(env.lib, c.packet).value.header == c.header
    ensures Decrypt(env, c.packet, Prepared(c.header, Serialize(c.header), Canonical(keys.read), keys.key))
         == match Content.Unpack(env.uc, clear) { case Ok(content) => Ok(content) case Err(e) => Err(ContentError(e)) }
  {
    var p := env.crypto;
    var headerBytes := Serialize(c.header);
    var ciphertext := p.encrypt(clear, headerBytes, random.nonce, keys.key);
    KeysAreKeys(p, c.secret, c.header.id, c.header.kdf, c.header.salt, passphrase);
    TokenOf(random.nonce, 24);
    ClientAccepts(env.lib, c.packet, Parsed(c.header, headerBytes, ciphertext));
    ParsersAgree(env.lib, c.packet);
    hide FromBase64Url, Canonical, Base64Bytes, Serialize, ContentKeys, PeekBytes, Hex, ValidHeader, Plain,
         ParsePacket, ParsePacketOnServer, IsHash, IsToken, Content.Unpack, IsPacket;
  }

  lemma TokenHashes(p: Primitives, b: seq<byte>)
    requires |b| == 32
    ensures TokenHash(p, Canonical(b)) == Some(Hash(p, b))
  {
    hide Canonical, Base64Bytes, FromBase64Url;
    TokenOf(b, 32);
  }

  /** create succeeds exactly when the policy, the passphrase and the content are acceptable: its
      final size check never fires. */
  lemma CreateSucceeds(env: Environment, input: Content.Content, options: Options, random: Random, padding: nat -> byte)
    requires LawfulEnvironment(env) && RightLengths(random)
    ensures Create(env, input, options, random, padding).Ok?
       <==> ValidPolicy(options.ttl, options.views) && PassphraseFits(options.passphrase) && Content.Prepare(env.uc, input).Ok?
  {
    hide Seal, Content.Prepare, ValidPolicy, Padded, Content.Lawful, Packet.Lawful, LawfulPrimitives;
    if Admit(env, input, options).None? {
      PaddedIsSound(env, input, padding);
      var _ := SealedNote(env, Padded(env, input, padding), options, random);
    }
  }

  /** Whatever create returns is accepted by both packet parsers; the recipient's preparation with
      the link and the same passphrase succeeds; decryption returns the normalized content; and each
      capability hashes on the server to the commitment in the header. */
  lemma EndToEnd(env: Environment, input: Content.Content, options: Options, random: Random, padding: nat -> byte)
    requires LawfulEnvironment(env) && RightLengths(random)
    requires Create(env, input, options, random, padding).Ok?
    ensures var c := Create(env, input, options, random, padding).value;
            && Plain(c.header)
            && ParsePacket(env.lib, c.packet).Some? && ParsePacketOnServer(env.lib, c.packet).Ok?
            && ParsePacketOnServer(env.lib, c.packet).value.header == c.header
            && var prepared := PrepareOpen(env, Canonical(Serialize(c.header)), c.secret, c.id, options.passphrase);
            && prepared.Ok?
            && Content.FilesNormalize(env.uc, input.files)
            && Decrypt(env, c.packet, prepared.value) == Ok(Content.Normalized(env.uc, input))
            && TokenHash(env.crypto, prepared.value.readToken) == Some(c.header.read)
            && TokenHash(env.crypto, c.revokeToken) == Some(c.header.revoke)
            && TokenHash(env.crypto, Canonical(PeekBytes(env.crypto, c.secret, c.id).value)) == Some(c.header.peek)
  {
    hide FromBase64Url, Canonical, Base64Bytes, Serialize, ContentKeys, PeekBytes, ValidHeader, Plain, Hash,
         ParsePacket, ParsePacketOnServer, PrepareOpen, Decrypt, Seal, Padded, TokenHash, ValidPolicy, IsPacket,
         Content.Prepare, Content.Unpack, Content.Normalized, Content.FilesNormalize, Content.Lawful, Packet.Lawful;
    var c := Create(env, input, options, random, padding).value;
    var clear := Padded(env, input, padding);
    PaddedIsSound(env, input, padding);
    var keys := SealedNote(env, clear, options, random);
    PrepareSealed(env, c, clear, options.passphrase, random, keys, options.passphrase);
    DecryptSealed(env, c, clear, options.passphrase, random, keys);
    KeysAreKeys(env.crypto, c.secret, c.header.id, c.header.kdf, c.header.salt, options.passphrase);
    TokenHashes(env.crypto, keys.read);
    TokenHashes(env.crypto, random.revoke);
    PeekLength(env.crypto, c.secret, c.id);
    TokenHashes(env.crypto, PeekBytes(env.crypto, c.secret, c.id).value);
  }

  lemma PeekLength(p: Primitives, secret: string, id: string)
    requires LawfulPrimitives(p) && PeekBytes(p, secret, id).Some?
    ensures |PeekBytes(p, secret, id).value| == 32
  {
    hide FromBase64Url;
  }
}
