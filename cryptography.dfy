/** Identity construction, the mailbox-key encoding and the hybrid envelope
    encryption of cryptography.go. RSA, AES-GCM, SHA-256 and the random
    source are not re-derived: they are the function-valued fields of a
    `Primitives` value, and the random draws are parameters. */
module Cryptography {
  import opened Protocol
  import Base64

  /** A 32-byte value: a SHA-256 digest or an AES-256 session key. */
  type Block32 = b: Bytes | |b| == 32 witness seq(32, _ => 0)

  /** A 12-byte GCM nonce. */
  type Nonce = n: Bytes | |n| == 12 witness seq(12, _ => 0)

  /** The cryptographic primitives the code calls, as uninterpreted functions.
      - sha256: `sha256.Sum256`, whose result type has 32 bytes;
      - newCipher: whether `aes.NewCipher(key)` succeeds;
      - newGcm: whether `cipher.NewGCM` succeeds on the block cipher for `key`;
      - gcmSeal / gcmOpen: `aead.Seal` and `aead.Open` with no additional data;
      - rsaEncrypt: `rsa.EncryptPKCS1v15` under the public key serialized in
        the first argument (None: the call returned an error);
      - rsaDecryptSessionKey: `rsa.DecryptPKCS1v15SessionKey` with the private
        key bytes, the wrapped key and the key buffer as it was before the call;
        Some(k) is the buffer afterwards, None an error;
      - isKeyPair: public and private key bytes that belong together. */
  datatype Primitives = Primitives(
    sha256: Bytes -> Block32,
    newCipher: Block32 -> bool,
    newGcm: Block32 -> bool,
    gcmSeal: (Block32, Nonce, Bytes) -> Bytes,
    gcmOpen: (Block32, Nonce, Bytes) -> Option<Bytes>,
    rsaEncrypt: (Bytes, Block32) -> Option<Bytes>,
    rsaDecryptSessionKey: (Bytes, Bytes, Block32) -> Option<Block32>,
    isKeyPair: (Bytes, Bytes) -> bool)

  /** What the primitives are assumed to guarantee: GCM opens what it sealed
      under the same key and nonce, and PKCS#1 v1.5 unwrapping with the
      matching private key recovers the wrapped key. */
  ghost predicate CipherAxioms(p: Primitives) {
    && (forall k: Block32, n: Nonce, m: Bytes :: p.gcmOpen(k, n, p.gcmSeal(k, n, m)) == Some(m))
    && (forall pub: Bytes, priv: Bytes, k: Block32, w: Bytes, fill: Block32 ::
          p.isKeyPair(pub, priv) && p.rsaEncrypt(pub, k) == Some(w) ==>
          p.rsaDecryptSessionKey(priv, w, fill) == Some(k))
  }

  /** `IdentToString`: standard padded base64 of the identity hash. */
  function IdentToString(bs: Bytes): string {
    Base64.Encode(bs)
  }

  /** A key has four characters per started group of three hash bytes. */
  lemma IdentToStringLength(bs: Bytes)
    ensures |IdentToString(bs)| == 4 * ((|bs| + 2) / 3)
  {
    Base64.EncodeLength(bs);
  }

  /** Every key character is in the alphabet except the trailing padding,
      which is 0, 2 or 1 '=' for n mod 3 equal to 0, 1 or 2. */
  lemma IdentToStringAlphabet(bs: Bytes)
    ensures var r := IdentToString(bs); var pad := Base64.PadCount(|bs|);
      pad <= |r| &&
      (forall k :: 0 <= k < |r| - pad ==> Base64.IsAlphabetChar(r[k])) &&
      (forall k :: |r| - pad <= k < |r| ==> r[k] == '=')
  {
    Base64.EncodeShape(bs);
  }

  /** Distinct identity hashes give distinct mailbox and local-user keys. */
  lemma IdentToStringInjective(x: Bytes, y: Bytes)
    ensures IdentToString(x) == IdentToString(y) <==> x == y
  {
    if IdentToString(x) == IdentToString(y) {
      Base64.EncodeInjective(x, y);
    }
  }

  /** A 32-byte hash is keyed by 44 characters, the last one '=' and no other. */
  lemma DigestKeyShape(h: Block32)
    ensures var r := IdentToString(h);
      |r| == 44 && r[43] == '=' && forall k :: 0 <= k < 43 ==> r[k] != '='
  {
    Base64.EncodeShape(h);
    Base64.EncodeLength(h);
    assert Base64.PadCount(|h|) == 1;
  }

  /** `BytesToIdentHash`: the SHA-256 digest of the serialized public key. */
  function BytesToIdentHash(p: Primitives, pubkbs: Bytes): Block32 {
    p.sha256(pubkbs)
  }

  /** An identity whose hash is that of its own public key. */
  ghost predicate WellFormed(p: Primitives, id: Identity) {
    id.ident == p.sha256(id.pubKey)
  }

  /** The result of a successful RSA key generation: the marshalled public
      key and the marshalled private key. */
  datatype KeyMaterial = KeyMaterial(pubKey: Bytes, privKey: Bytes)

  /** `NewIdentity`: `keyGen` is the outcome of generating a 2048-bit RSA key
      (None: generation failed, and the call returns nil for both results). */
  function NewIdentity(p: Primitives, name: string, handle: string, domain: string, profileUrl: string,
                       keyGen: Option<KeyMaterial>): (r: Option<(Identity, Bytes)>)
    ensures r.None? <==> keyGen.None?
    ensures r.Some? ==>
      var (id, priv) := r.value;
      && WellFormed(p, id)
      && id.pubKey == keyGen.value.pubKey && priv == keyGen.value.privKey
      && id.handle == handle && id.name == name && id.domain == domain && id.profileUrl == profileUrl
  {
    match keyGen
    case None => None
    case Some(km) =>
      var hashd := BytesToIdentHash(p, km.pubKey);
      Some((Identity(hashd, handle, name, domain, km.pubKey, profileUrl), km.privKey))
  }

  /** Every new identity is keyed by 44 characters ending in exactly one '='. */
  lemma NewIdentityKey(p: Primitives, name: string, handle: string, domain: string, profileUrl: string,
                       km: KeyMaterial)
    ensures var r := NewIdentity(p, name, handle, domain, profileUrl, Some(km));
      && r.Some?
      && var key := IdentToString(r.value.0.ident);
      && |key| == 44 && key[43] == '='
      && forall k :: 0 <= k < 43 ==> key[k] != '='
  {
    DigestKeyShape(p.sha256(km.pubKey));
  }

  /** The fields of an envelope that encryption never writes. */
  predicate SameHeader(a: RawMessage, b: RawMessage) {
    && a.fromIdent == b.fromIdent && a.toIdent == b.toIdent
    && a.msgType == b.msgType && a.timestamp == b.timestamp
    && a.aux1 == b.aux1 && a.aux2 == b.aux2 && a.aux3 == b.aux3
  }

  /** Encryption either completes or panics; a panic after the AEAD step
      leaves the content and nonce already overwritten. */
  datatype Sealing = Sealed(msg: RawMessage) | Panicked(partial: RawMessage)

  /** `DoRawMessageEncryption`: `keyDraw` and `nonceDraw` are the outcomes of
      reading 32 and 12 random bytes (None: the read failed). */
  function DoRawMessageEncryption(p: Primitives, rawMsg: Bytes, recip: Identity, msg: RawMessage,
                                  keyDraw: Option<Block32>, nonceDraw: Option<Nonce>): (r: Sealing)
    ensures r.Sealed? <==>
      && keyDraw.Some? && nonceDraw.Some?
      && p.newCipher(keyDraw.value) && p.newGcm(keyDraw.value)
      && p.rsaEncrypt(recip.pubKey, keyDraw.value).Some?
    ensures r.Sealed? ==>
      && SameHeader(msg, r.msg)
      && |r.msg.nonce| == 12 && r.msg.nonce == nonceDraw.value
      && r.msg.messageContent == p.gcmSeal(keyDraw.value, nonceDraw.value, rawMsg)
      && Some(r.msg.symKey) == p.rsaEncrypt(recip.pubKey, keyDraw.value)
    ensures r.Panicked? ==> SameHeader(msg, r.partial) && r.partial.symKey == msg.symKey
  {
    if keyDraw.None? || !p.newCipher(keyDraw.value) || nonceDraw.None? || !p.newGcm(keyDraw.value) then
      Panicked(msg)
    else
      var key, nonce := keyDraw.value, nonceDraw.value;
      var ciphertext := p.gcmSeal(key, nonce, rawMsg);
      var withContent := msg.(messageContent := ciphertext, nonce := nonce);
      match p.rsaEncrypt(recip.pubKey, key)
      case None => Panicked(withContent)
      case Some(encryptedSymKey) => Sealed(withContent.(symKey := encryptedSymKey))
  }

  /** The step of decryption that failed. */
  datatype CryptoError = RandomFailed | UnwrapFailed | CipherFailed | GcmFailed | OpenFailed

  /** Decryption returns plaintext or an error; a nonce of the wrong length
      makes `aead.Open` panic. */
  datatype Opening = Plaintext(text: Bytes) | Failed(error: CryptoError) | OpenPanicked

  /** The session key decryption recovers: the unwrapped key when the random
      pre-fill and the RSA unwrap both succeed, None otherwise. */
  function SessionKey(p: Primitives, msg: RawMessage, userPrivk: Bytes, keyDraw: Option<Block32>): Option<Block32> {
    if keyDraw.None? then None else p.rsaDecryptSessionKey(userPrivk, msg.symKey, keyDraw.value)
  }

  /** Both AES and GCM set-up succeed for `key`. */
  predicate CipherReady(p: Primitives, key: Block32) {
    p.newCipher(key) && p.newGcm(key)
  }

  /** `DoRawMessageDecryption`: `keyDraw` is the outcome of pre-filling the
      key buffer with 32 random bytes. Every failing step is an error, never
      plaintext; the only panic is `aead.Open` on a nonce that is not 12
      bytes long once the cipher is ready. */
  function DoRawMessageDecryption(p: Primitives, msg: RawMessage, userPrivk: Bytes,
                                  keyDraw: Option<Block32>): (r: Opening)
    ensures keyDraw.None? ==> r == Failed(RandomFailed)
    ensures keyDraw.Some? && p.rsaDecryptSessionKey(userPrivk, msg.symKey, keyDraw.value).None? ==>
      r == Failed(UnwrapFailed)
    ensures var key := SessionKey(p, msg, userPrivk, keyDraw);
      && (key.Some? && !p.newCipher(key.value) ==> r == Failed(CipherFailed))
      && (key.Some? && p.newCipher(key.value) && !p.newGcm(key.value) ==> r == Failed(GcmFailed))
      && (r.OpenPanicked? <==> key.Some? && CipherReady(p, key.value) && |msg.nonce| != 12)
      && (key.Some? && CipherReady(p, key.value) && |msg.nonce| == 12 ==>
            r == match p.gcmOpen(key.value, msg.nonce, msg.messageContent)
                 case None => Failed(OpenFailed)
                 case Some(text) => Plaintext(text))
    ensures r.Plaintext? ==>
      && keyDraw.Some? && |msg.nonce| == 12
      && var key := p.rsaDecryptSessionKey(userPrivk, msg.symKey, keyDraw.value);
      && key.Some? && p.newCipher(key.value) && p.newGcm(key.value)
      && p.gcmOpen(key.value, msg.nonce, msg.messageContent) == Some(r.text)
  {
    match keyDraw
    case None => Failed(RandomFailed)
    case Some(fill) =>
      match p.rsaDecryptSessionKey(userPrivk, msg.symKey, fill)
      case None => Failed(UnwrapFailed)
      case Some(key) =>
        if !p.newCipher(key) then Failed(CipherFailed)
        else if !p.newGcm(key) then Failed(GcmFailed)
        else if |msg.nonce| != 12 then OpenPanicked
        else
          match p.gcmOpen(key, msg.nonce, msg.messageContent)
          case None => Failed(OpenFailed)
          case Some(plaintext) => Plaintext(plaintext)
  }

  /** Under the cipher axioms, a message sealed for a recipient opens with the
      recipient's private key to the original plaintext, whatever the random
      pre-fill of the decryption key buffer. */
  lemma EncryptThenDecrypt(p: Primitives, rawMsg: Bytes, recip: Identity, msg: RawMessage,
                           privKey: Bytes, keyDraw: Option<Block32>, nonceDraw: Option<Nonce>,
                           fill: Block32)
    requires CipherAxioms(p) && p.isKeyPair(recip.pubKey, privKey)
    requires DoRawMessageEncryption(p, rawMsg, recip, msg, keyDraw, nonceDraw).Sealed?
    ensures DoRawMessageDecryption(p, DoRawMessageEncryption(p, rawMsg, recip, msg, keyDraw, nonceDraw).msg,
                                   privKey, Some(fill)) == Plaintext(rawMsg)
  {
    var sealed := DoRawMessageEncryption(p, rawMsg, recip, msg, keyDraw, nonceDraw).msg;
    var key, nonce := keyDraw.value, nonceDraw.value;
    assert p.rsaDecryptSessionKey(privKey, sealed.symKey, fill) == Some(key);
    assert p.gcmOpen(key, nonce, p.gcmSeal(key, nonce, rawMsg)) == Some(rawMsg);
  }

  /** The round trip of the encryption test: a freshly generated identity
      receives a message sealed for it and opens it with its own private key. */
  lemma NewIdentityRoundTrip(p: Primitives, name: string, handle: string, domain: string, profileUrl: string,
                             km: KeyMaterial, rawMsg: Bytes, msg: RawMessage,
                             keyDraw: Option<Block32>, nonceDraw: Option<Nonce>, fill: Block32)
    requires CipherAxioms(p) && p.isKeyPair(km.pubKey, km.privKey)
    requires var (id, _) := NewIdentity(p, name, handle, domain, profileUrl, Some(km)).value;
      DoRawMessageEncryption(p, rawMsg, id, msg, keyDraw, nonceDraw).Sealed?
    ensures var (id, priv) := NewIdentity(p, name, handle, domain, profileUrl, Some(km)).value;
      DoRawMessageDecryption(p, DoRawMessageEncryption(p, rawMsg, id, msg, keyDraw, nonceDraw).msg,
                             priv, Some(fill)) == Plaintext(rawMsg)
  {
    var (id, priv) := NewIdentity(p, name, handle, domain, profileUrl, Some(km)).value;
    EncryptThenDecrypt(p, rawMsg, id, msg, priv, keyDraw, nonceDraw, fill);
  }
}
