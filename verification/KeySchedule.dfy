/** What the keys of a note are made of, written out, and what follows for another passphrase, another
    link and a changed packet. */
module KeySchedule {
  import opened Wrappers
  import opened Bytes
  import opened Base64Url
  import opened Packet
  import opened Sealing
  import Utf8
  import Content

  ghost function SealingPurpose(kdf: string): (s: string)
    ensures IsAscii(s)
  {
    if kdf == "argon2id" then "erase.to/v1/aead:argon2id" else "erase.to/v1/aead:none"
  }

  ghost function ReadingPurpose(kdf: string): (s: string)
    ensures IsAscii(s)
  {
    if kdf == "argon2id" then "erase.to/v1/read:argon2id" else "erase.to/v1/read:none"
  }

  // HKDF-SHA-256 (RFC 5869) of the master secret and the stretched passphrase, for one purpose.
  ghost function Derived(p: Primitives, master: seq<byte>, stretched: seq<byte>, id: string, purpose: string): seq<byte>
    requires IsAscii(id) && IsAscii(purpose)
  {
    p.hkdf(master + stretched, AsciiBytes("erase.to/v1/content:" + id), AsciiBytes(purpose))
  }

  ghost function PeekOf(p: Primitives, master: seq<byte>, id: string): seq<byte>
    requires IsAscii(id)
  {
    p.hkdf(master, AsciiBytes("erase.to/v1/peek:" + id), AsciiBytes("erase.to/v1/peek"))
  }

  // Thirty-two zero bytes take the place of a passphrase that is not asked for.
  ghost function Stretched(p: Primitives, kdf: string, salt: seq<byte>, passphrase: Utf8.Text): seq<byte> {
    if kdf == "argon2id" then p.argon2id(Utf8.Encode(passphrase), salt) else seq(32, i => 0)
  }

  lemma AsciiJoins(a: string, b: string)
    requires IsAscii(a) && IsAscii(b)
    ensures IsAscii(a + b) && AsciiBytes(a + b) == AsciiBytes(a) + AsciiBytes(b)
  {
  }

  lemma SealingPurposeIs(kdf: string)
    requires kdf == "none" || kdf == "argon2id"
    ensures IsAscii(kdf) && AEAD_INFO + AsciiBytes(kdf) == AsciiBytes(SealingPurpose(kdf))
  {
    hide AsciiBytes;
    AsciiJoins("erase.to/v1/aead:", kdf);
    assert SealingPurpose(kdf) == "erase.to/v1/aead:" + kdf;
  }

  lemma ReadingPurposeIs(kdf: string)
    requires kdf == "none" || kdf == "argon2id"
    ensures IsAscii(kdf) && READ_INFO + AsciiBytes(kdf) == AsciiBytes(ReadingPurpose(kdf))
  {
    hide AsciiBytes;
    AsciiJoins("erase.to/v1/read:", kdf);
    assert ReadingPurpose(kdf) == "erase.to/v1/read:" + kdf;
  }

  lemma ContentSaltIs(id: string)
    requires IsAscii(id)
    ensures IsAscii("erase.to/v1/content:" + id) && CONTENT_SALT + AsciiBytes(id) == AsciiBytes("erase.to/v1/content:" + id)
  {
    hide AsciiBytes;
    AsciiJoins("erase.to/v1/content:", id);
  }

  // Why a passphrase is refused before any key is derived.
  ghost function Refusal(kdf: string, passphrase: Utf8.Text): Option<Sealing.Error> {
    if |passphrase| > 1024 then Some(InvalidPassphrase)
    else if !Utf8.WellFormed(passphrase) then Some(InvalidPackage)
    else if |Utf8.Encode(passphrase)| > 1024 then Some(InvalidPassphrase)
    else if kdf == "argon2id" && passphrase == [] then Some(WrongPassphrase)
    else None
  }

  /** Both keys of a note come from the master secret and the passphrase in the key material, the
      identifier in the salt, and the purpose with the name of the stretching in the info. */
  lemma KeysAre(p: Primitives, master: seq<byte>, id: string, kdf: string, salt: seq<byte>, passphrase: Utf8.Text)
    requires |master| == 32 && |salt| == 16 && IsAscii(id) && (kdf == "none" || kdf == "argon2id")
    ensures var keys := ContentKeys(p, Canonical(master), id, kdf, if kdf == "argon2id" then Canonical(salt) else "", passphrase);
            match Refusal(kdf, passphrase)
            case Some(e) => keys == Err(e)
            case None =>
              var stretched := Stretched(p, kdf, salt, passphrase);
              keys == Ok(Keys(Derived(p, master, stretched, id, SealingPurpose(kdf)),
                              Derived(p, master, stretched, id, ReadingPurpose(kdf))))
  {
    hide FromBase64Url, Canonical, Base64Bytes, IsToken, Utf8.Decode, Utf8.WellFormed, AsciiBytes;
    TokenOf(master, 32);
    TokenOf(salt, 16);
    Utf8.EncodeTextAccepts(passphrase);
    if passphrase != [] {
      NotEmpty(passphrase);
    }
    SealingPurposeIs(kdf);
    ReadingPurposeIs(kdf);
    hide IsAscii, SealingPurpose, ReadingPurpose;
    ContentSaltIs(id);
  }

  lemma PeekIs(p: Primitives, master: seq<byte>, id: string)
    requires |master| == 32 && IsToken(id, 32)
    ensures IsAscii(id) && PeekBytes(p, Canonical(master), id) == Some(PeekOf(p, master, id))
  {
    hide FromBase64Url, Canonical, Base64Bytes, AsciiBytes;
    TokenOf(master, 32);
    TokenOnClient(id, 32);
    TokenIsPlain(id, 32);
    PeekLabelsAre(id);
  }

  lemma PeekLabelsAre(id: string)
    requires IsAscii(id)
    ensures IsAscii("erase.to/v1/peek:" + id) && PEEK_SALT + AsciiBytes(id) == AsciiBytes("erase.to/v1/peek:" + id)
    ensures PEEK_INFO == AsciiBytes("erase.to/v1/peek")
  {
    hide AsciiBytes;
    AsciiJoins("erase.to/v1/peek:", id);
  }

  // ---- Preparation ------------------------------------------------------------------------------

  lemma DigestIs(p: Primitives, b: seq<byte>, hash: string)
    requires LawfulPrimitives(p)
    ensures SameHex(Hash(p, b), hash) <==> hash == Hex(p.sha256(b))
  {
    hide Hex;
    HexIsHash(p.sha256(b));
    SameHexIsEquality(Hash(p, b), hash);
  }

  /** prepareOpen on the header of any note and any well-formed secret: first the key of the link must
      match, then the passphrase must be usable, then the read key must match; only then is there a
      read capability and a key. */
  lemma PrepareAnswers(env: Environment, h: Header, master: seq<byte>, salt: seq<byte>, passphrase: Utf8.Text)
    requires LawfulEnvironment(env) && ValidHeader(h) && Plain(h) && |master| == 32 && |salt| == 16
    requires h.kdf == "argon2id" ==> h.salt == Canonical(salt)
    ensures IsAscii(h.id)
    ensures var r := PrepareOpen(env, Canonical(Serialize(h)), Canonical(master), h.id, passphrase);
            if h.peek != Hex(env.crypto.sha256(PeekOf(env.crypto, master, h.id))) then r == Err(InvalidLink)
            else match Refusal(h.kdf, passphrase)
            case Some(e) => r == Err(e)
            case None =>
              var stretched := Stretched(env.crypto, h.kdf, salt, passphrase);
              var read := Derived(env.crypto, master, stretched, h.id, ReadingPurpose(h.kdf));
              if h.read == Hex(env.crypto.sha256(read)) then
                r == Ok(Prepared(h, Serialize(h), Canonical(read),
                                 Derived(env.crypto, master, stretched, h.id, SealingPurpose(h.kdf))))
              else r == Err(if h.kdf == "argon2id" then WrongPassphrase else InvalidLink)
  {
    hide FromBase64Url, Canonical, Serialize, ContentKeys, PeekBytes, Hex, ParseHeader, SameHex, IsHash, Base64Bytes,
         Refusal, Hash, Content.Lawful, PeekOf, Derived, SealingPurpose, ReadingPurpose, IsAscii, Plain;
    HeaderFits(h);
    ClientAcceptsCanonical(Canonical(Serialize(h)), None, MAX_HEADER_BYTES, Serialize(h));
    ParseHeaderAccepts(env.lib, Serialize(h), h);
    TokenOnClient(h.id, 32);
    PeekIs(env.crypto, master, h.id);
    KeysAre(env.crypto, master, h.id, h.kdf, salt, passphrase);
    DigestIs(env.crypto, PeekOf(env.crypto, master, h.id), h.peek);
    DigestIs(env.crypto, Derived(env.crypto, master, Stretched(env.crypto, h.kdf, salt, passphrase), h.id, ReadingPurpose(h.kdf)), h.read);
  }

  /** Anything else is refused as an invalid package: a header that is not the canonical text of a valid
      header, another note's header, or a secret that is not 32 bytes. */
  lemma PrepareRefuses(env: Environment, headerBase64: string, secret: string, id: string, passphrase: Utf8.Text)
    requires LawfulEnvironment(env)
    requires !exists h: Header, master: seq<byte> ::
      ValidHeader(h) && Plain(h) && headerBase64 == Canonical(Serialize(h)) && h.id == id && |master| == 32 && secret == Canonical(master)
    ensures PrepareOpen(env, headerBase64, secret, id, passphrase) == Err(InvalidPackage)
  {
    hide Canonical, Serialize, ContentKeys, Hex, ParseHeader, SameHex, IsHash, Base64Bytes, Hash, FromBase64Url;
    var bytes := FromBase64Url(headerBase64, None, MAX_HEADER_BYTES);
    if bytes.Some? && ParseHeader(env.lib, bytes.value).Some? {
      var h := ParseHeader(env.lib, bytes.value).value;
      ClientAcceptsCanonical(headerBase64, None, MAX_HEADER_BYTES, bytes.value);
      ParseHeaderAccepts(env.lib, bytes.value, h);
      if FromBase64Url(secret, Some(32), 32).Some? {
        ClientAcceptsCanonical(secret, Some(32), 32, FromBase64Url(secret, Some(32), 32).value);
      }
    }
  }

  // ---- Creation ---------------------------------------------------------------------------------

  ghost function KdfOf(options: Options): string {
    if options.passphrase == [] then "none" else "argon2id"
  }

  ghost predicate IsOffered(options: Options) {
    && options.ttl == options.ttl.Floor as real && 60 <= options.ttl.Floor <= 604800
    && options.views == options.views.Floor as real && 1 <= options.views.Floor <= 100
  }

  // What create returns for that clear text.
  ghost predicate IsNote(p: Primitives, options: Options, random: Random, clear: seq<byte>, c: Created)
    requires RightLengths(random)
  {
    && IsOffered(options) && ValidHeader(c.header) && Plain(c.header) && IsAscii(Canonical(random.id))
    && var stretched := Stretched(p, KdfOf(options), random.salt, options.passphrase);
    && var read := Derived(p, random.master, stretched, Canonical(random.id), ReadingPurpose(KdfOf(options)));
    && var key := Derived(p, random.master, stretched, Canonical(random.id), SealingPurpose(KdfOf(options)));
    && c.id == Canonical(random.id) && c.secret == Canonical(random.master) && c.revokeToken == Canonical(random.revoke)
    && c.header == Header(1, c.id, options.ttl.Floor, options.views.Floor,
                          Hex(p.sha256(PeekOf(p, random.master, c.id))), Hex(p.sha256(read)), Hex(p.sha256(random.revoke)),
                          KdfOf(options), if options.passphrase == [] then "" else Canonical(random.salt), Canonical(random.nonce))
    && c.packet == [69, 82, 83, 49] + Be32(|Serialize(c.header)|) + Serialize(c.header)
                   + p.encrypt(clear, Serialize(c.header), random.nonce, key)
  }

  /** create refuses a policy, a passphrase and a content in this order; otherwise the note carries the
      policy, one commitment for each of the three capabilities, and the clear text encrypted for the
      canonical header. */
  lemma CreateAnswers(env: Environment, input: Content.Content, options: Options, random: Random, padding: nat -> byte)
    requires LawfulEnvironment(env) && RightLengths(random)
    ensures var r := Create(env, input, options, random, padding);
            if !IsOffered(options) then r == Err(InvalidPolicy)
            else if |options.passphrase| > 1024 then r == Err(InvalidPassphrase)
            else match Content.Prepare(env.uc, input)
            case Err(e) => r == Err(ContentError(e))
            case Ok(_) =>
              match Refusal(KdfOf(options), options.passphrase)
              case Some(e) => r == Err(e)
              case None => r.Ok? && IsNote(env.crypto, options, random, Padded(env, input, padding), r.value)
  {
    hide Seal, Content.Prepare, Padded, Content.Lawful, Packet.Lawful, LawfulPrimitives, Refusal, IsNote;
    if Admit(env, input, options).None? {
      PaddedIsSound(env, input, padding);
      SealAnswers(env, Padded(env, input, padding), options, random);
    }
  }

  lemma SealAnswers(env: Environment, clear: seq<byte>, options: Options, random: Random)
    requires LawfulPrimitives(env.crypto) && ValidPolicy(options.ttl, options.views) && RightLengths(random)
    requires |clear| % 4096 == 0 && 4096 <= |clear| <= Content.MAX_PADDED_BYTES
    ensures var r := Seal(env, clear, options, random);
            match Refusal(KdfOf(options), options.passphrase)
            case Some(e) => r == Err(e)
            case None => r.Ok? && IsNote(env.crypto, options, random, clear, r.value)
  {
    hide FromBase64Url, Canonical, Base64Bytes, Serialize, ContentKeys, PeekBytes, Hex, ValidHeader, Plain, Be32, Refusal, Stretched,
         Derived, PeekOf, SealingPurpose, ReadingPurpose, IsAscii;
    var p := env.crypto;
    var id := Canonical(random.id);
    TokenOf(random.id, 32);
    PeekIs(p, random.master, id);
    var peek := PeekOf(p, random.master, id);
    var draft := DraftHeader(p, options, random, peek);
    DraftIsSound(p, options, random, peek);
    KeysAre(p, random.master, id, KdfOf(options), random.salt, options.passphrase);
    var keys := ContentKeys(p, Canonical(random.master), id, draft.kdf, draft.salt, options.passphrase);
    if keys.Ok? {
      SealedHeaderIsValid(p, options, random, peek, keys.value.read);
      HeaderFits(draft.(read := Hash(p, keys.value.read)));
    }
  }

  // ---- Other passphrases --------------------------------------------------------------------------

  // No collisions where the arguments need none: among master secrets, in the second half of the content
  // key material, among short purposes, and among 32-byte capabilities.
  ghost predicate KeepsApart(p: Primitives) {
    && (forall a, b, salt, info :: |a| == 32 == |b| && p.hkdf(a, salt, info) == p.hkdf(b, salt, info) ==> a == b)
    && (forall a, b, salt, info :: |a| == 64 == |b| && a[..32] == b[..32] && p.hkdf(a, salt, info) == p.hkdf(b, salt, info) ==> a == b)
    && (forall material, salt, i, j :: |i| < 32 && |j| < 32 && p.hkdf(material, salt, i) == p.hkdf(material, salt, j) ==> i == j)
    && (forall a, b :: |a| == 32 == |b| && p.sha256(a) == p.sha256(b) ==> a == b)
  }

  lemma SameDigest(p: Primitives, a: seq<byte>, b: seq<byte>)
    requires LawfulPrimitives(p) && KeepsApart(p) && |a| == 32 == |b|
    ensures Hex(p.sha256(a)) == Hex(p.sha256(b)) <==> a == b
  {
    if Hex(p.sha256(a)) == Hex(p.sha256(b)) {
      HexInjective(p.sha256(a), p.sha256(b));
    }
  }

  lemma SameStretching(p: Primitives, master: seq<byte>, a: seq<byte>, b: seq<byte>, id: string, purpose: string)
    requires KeepsApart(p) && |master| == 32 && |a| == 32 == |b| && IsAscii(id) && IsAscii(purpose)
    ensures Derived(p, master, a, id, purpose) == Derived(p, master, b, id, purpose) <==> a == b
  {
    if Derived(p, master, a, id, purpose) == Derived(p, master, b, id, purpose) {
      assert (master + a)[..32] == (master + b)[..32];
      assert a == (master + a)[32..] && b == (master + b)[32..];
    }
  }

  // The read keys of two passphrases have the same digest exactly when the stretched passphrases agree.
  lemma SameReadDigest(p: Primitives, master: seq<byte>, a: seq<byte>, b: seq<byte>, id: string, purpose: string)
    requires LawfulPrimitives(p) && KeepsApart(p) && |master| == 32 && |a| == 32 == |b| && IsAscii(id) && IsAscii(purpose)
    ensures Hex(p.sha256(Derived(p, master, a, id, purpose))) == Hex(p.sha256(Derived(p, master, b, id, purpose))) <==> a == b
  {
    hide Hex, AsciiBytes, KeepsApart;
    SameStretching(p, master, a, b, id, purpose);
    SameDigest(p, Derived(p, master, a, id, purpose), Derived(p, master, b, id, purpose));
  }

  lemma AttemptAnswers(env: Environment, options: Options, random: Random, clear: seq<byte>, c: Created, attempt: Utf8.Text)
    requires LawfulEnvironment(env) && KeepsApart(env.crypto) && RightLengths(random)
    requires IsNote(env.crypto, options, random, clear, c)
    ensures var r := PrepareOpen(env, Canonical(Serialize(c.header)), c.secret, c.id, attempt);
            if Refusal(KdfOf(options), attempt).Some? then r == Err(Refusal(KdfOf(options), attempt).value)
            else if || options.passphrase == []
                    || env.crypto.argon2id(Utf8.Encode(attempt), random.salt)
                       == env.crypto.argon2id(Utf8.Encode(options.passphrase), random.salt)
            then r.Ok?
            else r == Err(WrongPassphrase)
  {
    hide Refusal, Canonical, Serialize, PrepareOpen, PeekOf, Derived, SealingPurpose, ReadingPurpose, IsAscii, Plain, Hex,
         KeepsApart, Be32, ValidHeader, Content.Lawful, Packet.Lawful;
    var p := env.crypto;
    PrepareAnswers(env, c.header, random.master, random.salt, attempt);
    var mine := Stretched(p, KdfOf(options), random.salt, options.passphrase);
    var theirs := Stretched(p, KdfOf(options), random.salt, attempt);
    SameReadDigest(p, random.master, mine, theirs, c.id, ReadingPurpose(KdfOf(options)));
  }

  /** With another passphrase a note prepares exactly when Argon2id cannot tell the two apart under the
      note's salt; a note without a passphrase prepares with any. */
  lemma OtherPassphrase(env: Environment, input: Content.Content, options: Options, random: Random, padding: nat -> byte,
                        attempt: Utf8.Text)
    requires LawfulEnvironment(env) && KeepsApart(env.crypto) && RightLengths(random)
    requires Create(env, input, options, random, padding).Ok?
    ensures var c := Create(env, input, options, random, padding).value;
            && Plain(c.header)
            && var r := PrepareOpen(env, Canonical(Serialize(c.header)), c.secret, c.id, attempt);
            if Refusal(KdfOf(options), attempt).Some? then r == Err(Refusal(KdfOf(options), attempt).value)
            else if || options.passphrase == []
                    || env.crypto.argon2id(Utf8.Encode(attempt), random.salt)
                       == env.crypto.argon2id(Utf8.Encode(options.passphrase), random.salt)
            then r.Ok?
            else r == Err(WrongPassphrase)
  {
    hide Create, Content.Prepare, Padded, Content.Lawful, Packet.Lawful, Refusal, Canonical, Serialize, PrepareOpen, KeepsApart,
         IsNote, LawfulPrimitives;
    var c := Create(env, input, options, random, padding).value;
    CreateAnswers(env, input, options, random, padding);
    AttemptAnswers(env, options, random, Padded(env, input, padding), c, attempt);
    NoteIsPlain(env.crypto, options, random, Padded(env, input, padding), c);
  }

  lemma NoteIsPlain(p: Primitives, options: Options, random: Random, clear: seq<byte>, c: Created)
    requires RightLengths(random) && IsNote(p, options, random, clear, c)
    ensures Plain(c.header)
  {
  }

  /** With any other master secret no preparation succeeds, whatever the passphrase. */
  lemma OtherSecret(env: Environment, input: Content.Content, options: Options, random: Random, padding: nat -> byte,
                    other: seq<byte>, attempt: Utf8.Text)
    requires LawfulEnvironment(env) && KeepsApart(env.crypto) && RightLengths(random)
    requires Create(env, input, options, random, padding).Ok? && |other| == 32 && other != random.master
    ensures var c := Create(env, input, options, random, padding).value;
            Plain(c.header) && PrepareOpen(env, Canonical(Serialize(c.header)), Canonical(other), c.id, attempt) == Err(InvalidLink)
  {
    hide Create, Content.Prepare, Padded, Content.Lawful, Packet.Lawful, Refusal, Canonical, Serialize, PrepareOpen, Hex, AsciiBytes,
         KeepsApart, Derived, Stretched, Be32, SealingPurpose, ReadingPurpose, IsAscii, ValidHeader, Plain;
    var c := Create(env, input, options, random, padding).value;
    CreateAnswers(env, input, options, random, padding);
    NoteIsPlain(env.crypto, options, random, Padded(env, input, padding), c);
    PrepareAnswers(env, c.header, other, random.salt, attempt);
    PeeksDiffer(env.crypto, random.master, other, c.id);
  }

  lemma PeeksDiffer(p: Primitives, a: seq<byte>, b: seq<byte>, id: string)
    requires LawfulPrimitives(p) && KeepsApart(p) && |a| == 32 == |b| && a != b && IsAscii(id)
    ensures Hex(p.sha256(PeekOf(p, a, id))) != Hex(p.sha256(PeekOf(p, b, id)))
  {
    hide AsciiBytes, Hex;
    SameDigest(p, PeekOf(p, a, id), PeekOf(p, b, id));
  }

  /** The key that decrypts a note is never the capability sent to the server. */
  lemma KeyStaysHome(env: Environment, headerBase64: string, secret: string, id: string, passphrase: Utf8.Text)
    requires LawfulEnvironment(env) && KeepsApart(env.crypto)
    requires PrepareOpen(env, headerBase64, secret, id, passphrase).Ok?
    ensures var r := PrepareOpen(env, headerBase64, secret, id, passphrase).value;
            |r.key| == 32 && r.readToken != Canonical(r.key)
  {
    hide PrepareOpen, Canonical, Serialize, Content.Lawful, Packet.Lawful, LawfulPrimitives, KeepsApart, ValidHeader, Plain;
    if !exists h: Header, master: seq<byte> ::
      ValidHeader(h) && Plain(h) && headerBase64 == Canonical(Serialize(h)) && h.id == id && |master| == 32 && secret == Canonical(master)
    {
      PrepareRefuses(env, headerBase64, secret, id, passphrase);
    } else {
      var h: Header, master: seq<byte> :|
        ValidHeader(h) && Plain(h) && headerBase64 == Canonical(Serialize(h)) && h.id == id && |master| == 32 && secret == Canonical(master);
      KeyOfHeader(env, h, master, passphrase);
    }
  }

  lemma SaltOf(h: Header) returns (salt: seq<byte>)
    requires ValidHeader(h)
    ensures |salt| == 16 && (h.kdf == "argon2id" ==> h.salt == Canonical(salt))
  {
    hide Canonical, Base64Bytes, IsHash;
    if h.kdf == "argon2id" {
      salt := Base64Bytes(h.salt, 16).value;
      ServerAcceptsCanonical(h.salt, 16, salt);
    } else {
      salt := seq(16, i => 0);
    }
  }

  lemma KeyOfHeader(env: Environment, h: Header, master: seq<byte>, passphrase: Utf8.Text)
    requires LawfulEnvironment(env) && KeepsApart(env.crypto) && ValidHeader(h) && Plain(h) && |master| == 32
    requires PrepareOpen(env, Canonical(Serialize(h)), Canonical(master), h.id, passphrase).Ok?
    ensures var r := PrepareOpen(env, Canonical(Serialize(h)), Canonical(master), h.id, passphrase).value;
            |r.key| == 32 && r.readToken != Canonical(r.key)
  {
    hide PrepareOpen, Canonical, Serialize, Content.Lawful, Packet.Lawful, KeepsApart, ValidHeader, Plain, Derived, SealingPurpose,
         ReadingPurpose, PeekOf, Hex, Refusal, IsAscii;
    var salt := SaltOf(h);
    PrepareAnswers(env, h, master, salt, passphrase);
    var stretched := Stretched(env.crypto, h.kdf, salt, passphrase);
    PurposesDiffer(env.crypto, master, stretched, h.id, h.kdf);
    var r := PrepareOpen(env, Canonical(Serialize(h)), Canonical(master), h.id, passphrase).value;
    TokenOf(Derived(env.crypto, master, stretched, h.id, ReadingPurpose(h.kdf)), 32);
    TokenOf(r.key, 32);
  }

  lemma PurposesDiffer(p: Primitives, master: seq<byte>, stretched: seq<byte>, id: string, kdf: string)
    requires LawfulPrimitives(p) && KeepsApart(p) && IsAscii(id)
    ensures |Derived(p, master, stretched, id, SealingPurpose(kdf))| == 32 == |Derived(p, master, stretched, id, ReadingPurpose(kdf))|
    ensures Derived(p, master, stretched, id, SealingPurpose(kdf)) != Derived(p, master, stretched, id, ReadingPurpose(kdf))
  {
    var s, r := SealingPurpose(kdf), ReadingPurpose(kdf);
    assert |s| < 32 && |r| < 32 && s[12] == 'a' && r[12] == 'r';
    assert AsciiBytes(s)[12] != AsciiBytes(r)[12];
  }

  // ---- Decryption -----------------------------------------------------------------------------------

  /** decrypt of a packet for which preparation succeeded or not: the packet must carry the prepared header,
      and its ciphertext must authenticate under that header, its nonce and the prepared key. */
  lemma DecryptAnswers(env: Environment, packet: seq<byte>, h: Header, ciphertext: seq<byte>, nonce: seq<byte>, prepared: Prepared)
    requires LawfulEnvironment(env) && IsPacket(packet, h, ciphertext) && |nonce| == 24 && h.nonce == Canonical(nonce)
    ensures Decrypt(env, packet, prepared) ==
            if |prepared.key| != 32 || prepared.headerBytes != Serialize(h) then Err(InvalidPackage)
            else match env.crypto.decrypt(ciphertext, Serialize(h), nonce, prepared.key)
            case None => Err(DecryptionFailed)
            case Some(clear) =>
              match Content.Unpack(env.uc, clear)
              case Ok(content) => Ok(content)
              case Err(e) => Err(ContentError(e))
  {
    hide Canonical, Serialize, FromBase64Url, ParsePacket, ValidHeader, Plain, Be32, Content.Unpack, Content.Lawful, Packet.Lawful;
    ClientAccepts(env.lib, packet, Parsed(h, Serialize(h), ciphertext));
    ClientAcceptsCanonical(h.nonce, Some(24), 24, nonce);
  }

  lemma DecryptRefuses(env: Environment, packet: seq<byte>, prepared: Prepared)
    requires LawfulEnvironment(env)
    requires !exists h: Header, ciphertext: seq<byte> :: IsPacket(packet, h, ciphertext)
    ensures Decrypt(env, packet, prepared) == Err(InvalidPackage)
  {
    hide Serialize, FromBase64Url, ParsePacket, IsPacket, Content.Unpack, Content.Lawful, Packet.Lawful;
    if ParsePacket(env.lib, packet).Some? {
      ClientAccepts(env.lib, packet, ParsePacket(env.lib, packet).value);
    }
  }

  /** The server takes exactly the texts of 32 bytes as capabilities, and compares the digest of those bytes. */
  lemma TokenAnswers(p: Primitives, token: string, digest: string)
    ensures TokenHash(p, token) == Some(digest)
       <==> exists b: seq<byte> :: |b| == 32 && token == Canonical(b) && digest == Hex(p.sha256(b))
  {
    hide Canonical, Base64Bytes, Hex;
    forall b: seq<byte> | |b| == 32 && token == Canonical(b) ensures Base64Bytes(token, 32) == Some(b) {
      ServerAcceptsCanonical(token, 32, b);
    }
    if Base64Bytes(token, 32).Some? {
      ServerAcceptsCanonical(token, 32, Base64Bytes(token, 32).value);
    }
  }

  // ---- The assumptions are consistent ---------------------------------------------------------------

  ghost function Cut(b: seq<byte>): (c: seq<byte>)
    ensures |c| == 32
  {
    if |b| == 32 then b else if |b| == 64 then b[32..] else seq(32, i => 0)
  }

  // A purpose of fewer than 32 bytes, its end marked, then zeros.
  ghost function Mark(b: seq<byte>): (c: seq<byte>)
    ensures |c| == 32
  {
    if |b| < 32 then b + [1] + seq(31 - |b|, i => 0) else seq(32, i => 0)
  }

  ghost function AddEach(a: seq<byte>, b: seq<byte>): (c: seq<byte>)
    requires |a| == |b|
    ensures |c| == |a|
  {
    seq(|a|, i requires 0 <= i < |a| => (a[i] as int + b[i]) % 256)
  }

  lemma AddEachInjective(a: seq<byte>, b: seq<byte>, c: seq<byte>, d: seq<byte>)
    requires |a| == |b| == |c| == |d| && AddEach(a, b) == AddEach(c, d)
    ensures a == c <==> b == d
  {
    forall i | 0 <= i < |a| ensures a[i] == c[i] <==> b[i] == d[i] {
      assert AddEach(a, b)[i] == AddEach(c, d)[i];
      SameSum(a[i], b[i], c[i], d[i]);
    }
  }

  lemma SameSum(a: byte, b: byte, c: byte, d: byte)
    requires (a as int + b) % 256 == (c as int + d) % 256
    ensures a == c <==> b == d
  {
  }

  lemma MarkInjective(a: seq<byte>, b: seq<byte>)
    requires |a| < 32 && |b| < 32 && Mark(a) == Mark(b)
    ensures a == b
  {
    var m, n := Mark(a), Mark(b);
    assert m[|a|] == 1 && n[|b|] == 1;
    assert forall i :: |a| < i < 32 ==> m[i] == 0;
    assert forall i :: |b| < i < 32 ==> n[i] == 0;
    assert a == m[..|a|] && b == n[..|b|];
  }

  ghost function ModelPrimitives(): Primitives {
    Primitives(
      b => Cut(b),
      (material, salt, info) => AddEach(Cut(material), Mark(info)),
      (password, salt) => Cut(password),
      (m, ad, nonce, key) => m + seq(16, i => 0),
      (c, ad, nonce, key) => if |c| < 16 then None else Some(c[..|c| - 16]))
  }

  /** There are primitives that satisfy every assumption made here. */
  lemma AssumptionsHaveAModel()
    ensures exists p: Primitives :: LawfulPrimitives(p) && KeepsApart(p)
  {
    var p := ModelPrimitives();
    assert LawfulPrimitives(p) by {
      forall m: seq<byte>, ad: seq<byte>, nonce: seq<byte>, key: seq<byte>
        ensures p.decrypt(p.encrypt(m, ad, nonce, key), ad, nonce, key) == Some(m)
      {
        assert (m + seq(16, i => 0))[..|m|] == m;
      }
    }
    ModelKeepsApart(p);
  }

  lemma ModelKeepsApart(p: Primitives)
    requires p == ModelPrimitives()
    ensures KeepsApart(p)
  {
    hide AddEach, Mark;
    forall a: seq<byte>, b: seq<byte>, salt: seq<byte>, info: seq<byte>
      | ((|a| == 32 == |b|) || (|a| == 64 == |b| && a[..32] == b[..32])) && p.hkdf(a, salt, info) == p.hkdf(b, salt, info)
      ensures a == b
    {
      AddEachInjective(Cut(a), Mark(info), Cut(b), Mark(info));
      assert |a| == 64 ==> a == a[..32] + a[32..] && b == b[..32] + b[32..];
    }
    forall material: seq<byte>, salt: seq<byte>, i: seq<byte>, j: seq<byte>
      | |i| < 32 && |j| < 32 && p.hkdf(material, salt, i) == p.hkdf(material, salt, j)
      ensures i == j
    {
      AddEachInjective(Cut(material), Mark(i), Cut(material), Mark(j));
      MarkInjective(i, j);
    }
  }
}
