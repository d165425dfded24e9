/** The framing of libs/rsa.py: an AES key under OAEP, then nonce, tag and ciphertext. AES-EAX
    and the text codec are parameters of which only the inverse laws and lengths are known. */
module HybridEnvelope {
  import opened Octets
  import opened Oaep
  import opened OaepProofs
  import opened Results

  datatype EnvelopeError = RsaFailed(error: OaepError) | NotEncodable | TagMismatch | NotDecodable

  const PREFIX: Bytes := [72, 89, 66, 82, 73, 68, 58]  // "HYBRID:"
  const AES_KEY_SIZE := 16
  const NONCE_SIZE := 16
  const TAG_SIZE := 16

  /** The authenticated cipher and the text codec. */
  datatype Codec = Codec(
    seal: (Bytes, Bytes, Bytes) -> (Bytes, Bytes),
    open_: (Bytes, Bytes, Bytes, Bytes) -> Option<Bytes>,
    encode: string -> Option<Bytes>,
    decode: Bytes -> Option<string>)
  {
    ghost predicate Lawful() {
      && (forall key: Bytes, nonce: Bytes, p: Bytes :: |seal(key, nonce, p).1| == TAG_SIZE)
      && (forall key: Bytes, nonce: Bytes, p: Bytes ::
            open_(key, nonce, seal(key, nonce, p).0, seal(key, nonce, p).1) == Some(p))
      && (forall text: string :: encode(text).Some? ==> decode(encode(text).value) == Some(text))
    }
  }

  /** A Python slice, whose bounds are clipped to the length. */
  function Slice(s: Bytes, from: nat, to: nat): Bytes
    requires from <= to
  {
    s[Min(from, |s|)..Min(to, |s|)]
  }

  /** Encryption with the random AES key, nonce and OAEP seed it draws. */
  function Encrypt(c: Cipher, codec: Codec, text: string, aesKey: Bytes, nonce: Bytes, ros: Bytes)
    : (r: Result<Bytes, EnvelopeError>)
    requires c.Valid() && |ros| == c.hLen
  {
    match codec.encode(text)
    case None => Err(NotEncodable)
    case Some(plain) =>
      var (ciphertext, tag) := codec.seal(aesKey, nonce, plain);
      match c.Encrypt(aesKey, ros)
      case Err(e) => Err(RsaFailed(e))
      case Ok(encAesKey) => Ok(PREFIX + (encAesKey + nonce + tag + ciphertext))
  }

  function Decode(codec: Codec, plain: Bytes): Result<string, EnvelopeError> {
    match codec.decode(plain)
    case None => Err(NotDecodable)
    case Some(text) => Ok(text)
  }

  /** Decryption: framed data by its slices, anything else as a bare OAEP ciphertext. */
  function Decrypt(c: Cipher, codec: Codec, data: Bytes): Result<string, EnvelopeError>
    requires c.Valid()
  {
    if PREFIX <= data then
      var body := data[|PREFIX|..];
      var k := c.K();
      var nonce, tag := Slice(body, k, k + 16), Slice(body, k + 16, k + 32);
      match c.Decrypted(Slice(body, 0, k))
      case Err(e) => Err(RsaFailed(e))
      case Ok(aesKey) =>
        match codec.open_(aesKey, nonce, Slice(body, k + 32, |body| + k + 32), tag)
        case None => Err(TagMismatch)
        case Some(plain) => Decode(codec, plain)
    else
      match c.Decrypted(data)
      case Err(e) => Err(RsaFailed(e))
      case Ok(plain) => Decode(codec, plain)
  }

  /** The slices at k, k + 16 and k + 32 take a frame apart into what was put together. */
  lemma SlicesOfFrame(k: nat, encAesKey: Bytes, nonce: Bytes, tag: Bytes, ciphertext: Bytes)
    requires |encAesKey| == k && |nonce| == NONCE_SIZE && |tag| == TAG_SIZE
    ensures var body := encAesKey + nonce + tag + ciphertext;
            && Slice(body, 0, k) == encAesKey
            && Slice(body, k, k + 16) == nonce
            && Slice(body, k + 16, k + 32) == tag
            && Slice(body, k + 32, |body| + k + 32) == ciphertext
  {
  }

  /** The frame: "HYBRID:", the key drawn under OAEP with the seed drawn, the nonce drawn, the tag and
      the ciphertext of the text under that key and nonce. */
  lemma FrameHoldsWhatWasDrawn(c: Cipher, codec: Codec, text: string, aesKey: Bytes, nonce: Bytes, ros: Bytes)
    requires c.Valid() && c.key.Valid() && codec.Lawful() && |ros| == c.hLen && |nonce| == 16
    requires Encrypt(c, codec, text, aesKey, nonce, ros).Ok?
    ensures codec.encode(text).Some? && c.Encrypt(aesKey, ros).Ok?
    ensures var frame, k := Encrypt(c, codec, text, aesKey, nonce, ros).value, c.K();
            var (ciphertext, tag) := codec.seal(aesKey, nonce, codec.encode(text).value);
            && |frame| == 7 + k + 32 + |ciphertext|
            && frame[..7] == [72, 89, 66, 82, 73, 68, 58]
            && frame[7..7 + k] == c.Encrypt(aesKey, ros).value && c.Decrypted(frame[7..7 + k]) == Ok(aesKey)
            && frame[7 + k..7 + k + 16] == nonce && frame[7 + k + 16..7 + k + 32] == tag
            && frame[7 + k + 32..] == ciphertext
  {
    OaepProofs.DecryptUndoesEncrypt(c, aesKey, ros);
  }

  /** Framed data is read exactly when its key decrypts, its tag fits and its text decodes. */
  lemma FrameIsReadExactly(c: Cipher, codec: Codec, data: Bytes, text: string)
    requires c.Valid() && |data| >= 7 + c.K() + 32 && data[..7] == [72, 89, 66, 82, 73, 68, 58]
    ensures var k := c.K();
            Decrypt(c, codec, data) == Ok(text) <==>
              && c.Decrypted(data[7..7 + k]).Ok?
              && var plain := codec.open_(c.Decrypted(data[7..7 + k]).value, data[7 + k..7 + k + 16],
                                          data[7 + k + 32..], data[7 + k + 16..7 + k + 32]);
                 plain.Some? && codec.decode(plain.value) == Some(text)
  {
    hide Cipher.Decrypted;
    hide Cipher.Valid;
    SlicesOfData(data, c.K());
    hide Slice;
  }

  lemma SlicesOfData(data: Bytes, k: nat)
    requires |data| >= 7 + k + 32 && data[..7] == [72, 89, 66, 82, 73, 68, 58]
    ensures PREFIX <= data
    ensures var body := data[|PREFIX|..];
            && Slice(body, 0, k) == data[7..7 + k] && Slice(body, k, k + 16) == data[7 + k..7 + k + 16]
            && Slice(body, k + 16, k + 32) == data[7 + k + 16..7 + k + 32]
            && Slice(body, k + 32, |body| + k + 32) == data[7 + k + 32..]
  {
  }

  /** Every text the codec encodes comes back, under every key that leaves room for an AES key. */
  lemma DecryptUndoesEncrypt(c: Cipher, codec: Codec, text: string, aesKey: Bytes, nonce: Bytes, ros: Bytes)
    requires c.Valid() && c.key.Valid() && codec.Lawful()
    requires |ros| == c.hLen && |aesKey| == AES_KEY_SIZE && |nonce| == NONCE_SIZE
    ensures var r := Encrypt(c, codec, text, aesKey, nonce, ros);
            && (r.Ok? <==> codec.encode(text).Some? && c.hLen == SHA1_SIZE && c.K() >= 58)
            && (r.Ok? ==> Decrypt(c, codec, r.value) == Ok(text))
  {
    OaepProofs.DecryptUndoesEncrypt(c, aesKey, ros);
    var r := Encrypt(c, codec, text, aesKey, nonce, ros);
    if r.Ok? {
      var plain := codec.encode(text).value;
      var (ciphertext, tag) := codec.seal(aesKey, nonce, plain);
      var encAesKey := c.Encrypt(aesKey, ros).value;
      SlicesOfFrame(c.K(), encAesKey, nonce, tag, ciphertext);
      assert r.value[|PREFIX|..] == encAesKey + nonce + tag + ciphertext;
    }
  }

  /** A bare OAEP ciphertext of a text, as older data holds it, comes back exactly when it does
      not happen to start with the prefix. */
  lemma BareCiphertextDecryptsExactly(c: Cipher, codec: Codec, text: string, ros: Bytes)
    requires c.Valid() && c.key.Valid() && codec.Lawful() && |ros| == c.hLen
    requires codec.encode(text).Some? && c.Encrypt(codec.encode(text).value, ros).Ok?
    ensures var data := c.Encrypt(codec.encode(text).value, ros).value;
            Decrypt(c, codec, data) == Ok(text) <==> !(PREFIX <= data)
  {
    OaepProofs.DecryptUndoesEncrypt(c, codec.encode(text).value, ros);
    var data := c.Encrypt(codec.encode(text).value, ros).value;
    if PREFIX <= data {
      var body := data[|PREFIX|..];
      assert |Slice(body, 0, c.K())| < c.K();
    }
  }
}
