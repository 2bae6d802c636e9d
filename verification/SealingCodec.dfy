/** `create` with its buffers: the packed content and the packet are filled in place. */
module SealingCodec {
  import opened Wrappers
  import opened Bytes
  import opened Packet
  import opened Sealing
  import Base64Url
  import Content
  import ContentCodec
  import Utf8

  /** create computes what the specification says, from the bytes its buffers hold. */
  method CreateNote(env: Environment, input: Content.Content, options: Options, random: Random, padding: nat -> byte)
    returns (r: Result<Created, Sealing.Error>)
    requires LawfulPrimitives(env.crypto) && RightLengths(random)
    ensures r == Create(env, input, options, random, padding)
  {
    if !ValidPolicy(options.ttl, options.views) {
      return Err(InvalidPolicy);
    }
    if |options.passphrase| > MAX_PASSPHRASE_BYTES {
      return Err(InvalidPassphrase);
    }
    var packed := ContentCodec.Pack(env.uc, input, padding);
    if packed.Err? {
      return Err(ContentError(packed.error));
    }
    var clear := packed.value[..];
    PackedIsPadded(env, input, padding, clear);
    r := SealInPlace(env, clear, options, random);
  }

  lemma PackedIsPadded(env: Environment, input: Content.Content, padding: nat -> byte, clear: seq<byte>)
    requires Content.Prepare(env.uc, input).Ok?
    requires var logical := Content.LogicalLength(Content.Prepare(env.uc, input).value);
             && |clear| == Content.PaddedLength(logical) >= logical
             && clear[..logical] == Content.Envelope(Content.Prepare(env.uc, input).value)
             && forall i :: logical <= i < |clear| ==> clear[i] == padding(i)
    ensures clear == Padded(env, input, padding)
  {
    hide Content.Prepare, Content.Envelope;
    var logical := Content.LogicalLength(Content.Prepare(env.uc, input).value);
    assert clear == clear[..logical] + clear[logical..];
    assert clear[logical..] == seq(|clear| - logical, i requires 0 <= i => padding(logical + i));
  }

  method SealInPlace(env: Environment, clear: seq<byte>, options: Options, random: Random)
    returns (r: Result<Created, Sealing.Error>)
    requires LawfulPrimitives(env.crypto) && ValidPolicy(options.ttl, options.views) && RightLengths(random)
    ensures r == Seal(env, clear, options, random)
  {
    hide Base64Url.FromBase64Url, Base64Url.Canonical, Base64Url.Base64Bytes, Serialize, ContentKeys, PeekBytes, Hash,
         ValidHeader, Plain, Be32, ValidPolicy, Packet.IsHash;
    var p := env.crypto;
    var secret, id := Base64Url.Canonical(random.master), Base64Url.Canonical(random.id);
    var peek := PeekBytes(p, secret, id);
    if peek.None? {
      return Err(InvalidPackage);
    }
    var draft := DraftHeader(p, options, random, peek.value);
    DraftIsSound(p, options, random, peek.value);
    var keys := ContentKeys(p, secret, id, draft.kdf, draft.salt, options.passphrase);
    if keys.Err? {
      return Err(keys.error);
    }
    var header := draft.(read := Hash(p, keys.value.read));
    SealedHeaderIsValid(p, options, random, peek.value, keys.value.read);
    ValidIsPlain(header);
    var headerBytes := Serialize(header);
    var ciphertext := p.encrypt(clear, headerBytes, random.nonce, keys.value.key);
    var packet := new byte[8 + |headerBytes| + |ciphertext|](i => 0);
    ContentCodec.Put(packet, 0, ERS1);
    ContentCodec.Put(packet, 4, Be32(|headerBytes|));
    ContentCodec.Put(packet, 8, headerBytes);
    ContentCodec.Put(packet, 8 + |headerBytes|, ciphertext);
    assert packet[..] == packet[..8 + |headerBytes| + |ciphertext|] == ERS1 + Be32(|headerBytes|) + headerBytes + ciphertext;
    if packet.Length > MAX_PACKET_BYTES {
      return Err(InvalidPackage);
    }
    r := Ok(Created(packet[..], id, secret, Base64Url.Canonical(random.revoke), header));
  }
}
