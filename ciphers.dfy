/** The three symmetric layers of the tri-hybrid scheme, as the wrappers in
    src/crypto/ frame them. The primitives themselves (the ChaCha20 and
    AES keystream generators, ASCON-128 sealing and opening, UTF-8) are
    library code and are parameters here; the framing around them (nonce
    prefixes, key- and nonce-length failures, length preservation) is
    modelled exactly. */
module Ciphers {
  import opened Wrappers
  import opened Bytes

  /** A keystream generator: the keystream byte at a position for a key
      and a nonce. ChaCha20 and AES in counter mode both encrypt by XOR
      with such a stream. */
  type Keystream = (bytes, bytes, nat) -> byte

  type Nonce8 = s: bytes | |s| == 8 witness [0, 0, 0, 0, 0, 0, 0, 0]
  type Nonce16 = s: bytes | |s| == 16 witness [0, 0, 0, 0, 0, 0, 0, 0, 0, 0, 0, 0, 0, 0, 0, 0]

  /** The library primitives the wrappers call. */
  datatype Primitives = Primitives(
    chacha20: Keystream,
    aesCtr: Keystream,
    asconSeal: (bytes, bytes, bytes) -> bytes,           // key, nonce, plaintext -> ciphertext || tag
    asconOpen: (bytes, bytes, bytes) -> Option<bytes>,    // key, nonce, ciphertext || tag -> plaintext
    utf8Encode: string -> bytes,
    utf8Decode: bytes -> Option<string>)

  /** What the libraries promise and the round trips rely on: ASCON-128
      with a 16-byte key and nonce appends a 16-byte tag and opens what it
      sealed, and UTF-8 decoding inverts encoding. */
  ghost predicate Sound(p: Primitives)
  {
    && (forall key: bytes, nonce: bytes, msg: bytes
          | |key| == 16 && |nonce| == 16 ::
          && |p.asconSeal(key, nonce, msg)| == |msg| + 16
          && p.asconOpen(key, nonce, p.asconSeal(key, nonce, msg)) == Some(msg))
    && (forall s: string :: p.utf8Decode(p.utf8Encode(s)) == Some(s))
  }

  /** `data` XOR-ed with the keystream for `key` and `nonce`. */
  function XorStream(ks: Keystream, key: bytes, nonce: bytes, data: bytes): (r: bytes)
    ensures |r| == |data|
  {
    seq(|data|, i requires 0 <= i < |data| => XorByte(data[i], ks(key, nonce, i)))
  }

  /** A stream cipher's decryption is its encryption, with the same key
      and nonce. */
  lemma XorStreamInvolutive(ks: Keystream, key: bytes, nonce: bytes, data: bytes)
    ensures XorStream(ks, key, nonce, XorStream(ks, key, nonce, data)) == data
  {
    var once := XorStream(ks, key, nonce, data);
    forall i | 0 <= i < |data|
      ensures XorStream(ks, key, nonce, once)[i] == data[i]
    {
      XorByteInvolutive(data[i], ks(key, nonce, i));
    }
  }

  // ---------------------------------------------------------------- ChaCha20

  predicate ChaChaKey(key: bytes) { |key| == 32 }

  /** `encrypt_chacha`: UTF-8 encode the text, encrypt with a fresh 8-byte
      nonce, return `nonce || ciphertext`. `None` stands for the exception
      the library raises on a key that is not 32 bytes. */
  function EncryptChaCha(p: Primitives, plaintext: string, key: bytes, nonce: Nonce8): (r: Option<bytes>)
    ensures r.Some? <==> ChaChaKey(key)
    ensures r.Some? ==> |r.value| == 8 + |p.utf8Encode(plaintext)| && r.value[..8] == nonce
  {
    if !ChaChaKey(key) then None
    else Some(nonce + XorStream(p.chacha20, key, nonce, p.utf8Encode(plaintext)))
  }

  /** `decrypt_chacha`: split off the 8-byte nonce, decrypt, decode UTF-8.
      A bad key, a nonce shorter than 8 bytes and invalid UTF-8 are all
      caught and give `None`. */
  function DecryptChaCha(p: Primitives, data: bytes, key: bytes): (r: Option<string>)
    ensures r.Some? ==> ChaChaKey(key) && |data| >= 8
    ensures ChaChaKey(key) && |data| >= 8 ==>
              r == p.utf8Decode(XorStream(p.chacha20, key, data[..8], data[8..]))
  {
    if !ChaChaKey(key) || |data| < 8 then None
    else p.utf8Decode(XorStream(p.chacha20, key, data[..8], data[8..]))
  }

  lemma ChaChaRoundTrip(p: Primitives, plaintext: string, key: bytes, nonce: Nonce8)
    requires Sound(p) && ChaChaKey(key)
    ensures DecryptChaCha(p, EncryptChaCha(p, plaintext, key, nonce).value, key) == Some(plaintext)
  {
    var data := EncryptChaCha(p, plaintext, key, nonce).value;
    var encoded := p.utf8Encode(plaintext);
    assert data[..8] == nonce && data[8..] == XorStream(p.chacha20, key, nonce, encoded);
    XorStreamInvolutive(p.chacha20, key, nonce, encoded);
  }

  // --------------------------------------------------------------- ASCON-128

  predicate AsconKey(key: bytes) { |key| == 16 }

  /** `encrypt_ascon`: seal with a fresh 16-byte nonce and empty associated
      data, return `nonce || ciphertext || tag`. `None` stands for the
      library's rejection of a key that is not 16 bytes. */
  function EncryptAscon(p: Primitives, data: bytes, key: bytes, nonce: Nonce16): (r: Option<bytes>)
    ensures r.Some? <==> AsconKey(key)
    ensures r.Some? ==> r.value == nonce + p.asconSeal(key, nonce, data)
  {
    if !AsconKey(key) then None else Some(nonce + p.asconSeal(key, nonce, data))
  }

  /** `decrypt_ascon`: split off the 16-byte nonce and open the rest; a
      failed tag check and every other library error give `None`. */
  function DecryptAscon(p: Primitives, payload: bytes, key: bytes): (r: Option<bytes>)
    ensures r.Some? ==> AsconKey(key) && |payload| >= 16
    ensures AsconKey(key) && |payload| >= 16 ==> r == p.asconOpen(key, payload[..16], payload[16..])
  {
    if !AsconKey(key) || |payload| < 16 then None
    else p.asconOpen(key, payload[..16], payload[16..])
  }

  lemma AsconRoundTrip(p: Primitives, data: bytes, key: bytes, nonce: Nonce16)
    requires Sound(p) && AsconKey(key)
    ensures |EncryptAscon(p, data, key, nonce).value| == |data| + 32
    ensures DecryptAscon(p, EncryptAscon(p, data, key, nonce).value, key) == Some(data)
  {
    var sealed := p.asconSeal(key, nonce, data);
    assert |sealed| == |data| + 16 && p.asconOpen(key, nonce, sealed) == Some(data);
  }

  // ------------------------------------------------------------- AES-128-CTR

  /** AES accepts 16-, 24- and 32-byte keys. */
  predicate AesKey(key: bytes) { |key| == 16 || |key| == 24 || |key| == 32 }

  /** `encrypt_aes`: counter mode with a fresh 8-byte nonce as the counter
      prefix, return `nonce || ciphertext`. */
  function EncryptAes(p: Primitives, plaintext: bytes, key: bytes, nonce: Nonce8): (r: Option<bytes>)
    ensures r.Some? <==> AesKey(key)
    ensures r.Some? ==> |r.value| == 8 + |plaintext| && r.value[..8] == nonce
  {
    if !AesKey(key) then None else Some(nonce + XorStream(p.aesCtr, key, nonce, plaintext))
  }

  /** `decrypt_aes`: rebuild the counter from the leading 8 bytes and
      decrypt the rest. Counter mode has no integrity check: any input of
      at least 8 bytes decrypts to something of its length minus 8. */
  function DecryptAes(p: Primitives, data: bytes, key: bytes): (r: Option<bytes>)
    ensures r.Some? <==> AesKey(key) && |data| >= 8
    ensures r.Some? ==> |r.value| == |data| - 8
  {
    if !AesKey(key) || |data| < 8 then None
    else Some(XorStream(p.aesCtr, key, data[..8], data[8..]))
  }

  lemma {:induction false} AesRoundTrip(p: Primitives, plaintext: bytes, key: bytes, nonce: Nonce8)
    requires AesKey(key)
    ensures DecryptAes(p, EncryptAes(p, plaintext, key, nonce).value, key) == Some(plaintext)
  {
    var data := EncryptAes(p, plaintext, key, nonce).value;
    assert data[..8] == nonce && data[8..] == XorStream(p.aesCtr, key, nonce, plaintext);
    XorStreamInvolutive(p.aesCtr, key, nonce, plaintext);
  }
}
