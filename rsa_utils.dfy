/** Key exchange helpers: the three symmetric keys travel as one 64-byte blob
    under RSA-OAEP, and public keys are published in a shared registry that
    maps user names to PEM strings. */
module RsaUtils {
  import opened Wrappers
  import opened Bytes
  import opened ChunkManager

  // ------------------------------------------------------------ key blob

  const INNER_KEY_LEN: nat := 32
  const OUTER_KEY_LEN: nat := 16
  const CTR_KEY_LEN: nat := 16
  const BLOB_LEN: nat := INNER_KEY_LEN + OUTER_KEY_LEN + CTR_KEY_LEN

  /** The layout `inner + outer + ctr`: each key at a fixed offset. */
  function PackKeys(inner: bytes, outer: bytes, ctr: bytes): (blob: bytes)
    ensures |blob| == |inner| + |outer| + |ctr|
    ensures blob[..|inner|] == inner
    ensures blob[|inner|..|inner| + |outer|] == outer
    ensures blob[|inner| + |outer|..] == ctr
  {
    inner + outer + ctr
  }

  /** `blob[0:32], blob[32:48], blob[48:64]`: the clamping slices take the
      first 64 bytes apart; a shorter blob gives shorter keys, and anything
      past byte 64 is ignored. */
  function UnpackKeys(blob: bytes): (r: KeySet)
    ensures r.inner + r.outer + r.ctr == Slice(blob, 0, BLOB_LEN)
    ensures |blob| >= BLOB_LEN ==> |r.inner| == INNER_KEY_LEN && |r.outer| == OUTER_KEY_LEN && |r.ctr| == CTR_KEY_LEN
    ensures |r.inner| == (if |blob| < 32 then |blob| else 32)
    ensures |r.outer| == (if |blob| < 32 then 0 else if |blob| < 48 then |blob| - 32 else 16)
  {
    var r := KeySet(Slice(blob, 0, 32), Slice(blob, 32, 48), Slice(blob, 48, 64));
    SlicesJoin(blob);
    r
  }

  lemma SlicesJoin(blob: bytes)
    ensures Slice(blob, 0, 32) + Slice(blob, 32, 48) + Slice(blob, 48, 64) == Slice(blob, 0, 64)
  {
    var n := if |blob| < 64 then |blob| else 64;
    var a := if n < 32 then n else 32;
    var b := if n < 48 then n else 48;
    assert blob[..n] == blob[..a] + blob[a..b] + blob[b..n];
  }

  /** Keys of the configured lengths come back out of their blob unchanged. */
  lemma UnpackPackKeys(keys: KeySet)
    requires |keys.inner| == INNER_KEY_LEN && |keys.outer| == OUTER_KEY_LEN && |keys.ctr| == CTR_KEY_LEN
    ensures UnpackKeys(PackKeys(keys.inner, keys.outer, keys.ctr)) == keys
  {
  }

  /** Every 64-byte blob is the packing of the keys it unpacks to. */
  lemma PackUnpackKeys(blob: bytes)
    requires |blob| == BLOB_LEN
    ensures var keys := UnpackKeys(blob); PackKeys(keys.inner, keys.outer, keys.ctr) == blob
  {
  }

  // ---------------------------------------------------------------- OAEP

  /** RSA-OAEP as a parameter: encryption under a PEM public key (which may
      fail to import) and decryption with a private key (which raises on a
      bad ciphertext). `Priv` stands for the private key object. */
  datatype Oaep<!Priv> = Oaep(encrypt: (string, bytes) -> Option<bytes>,
                             decrypt: (Priv, bytes) -> Option<bytes>)

  /** The largest message RSA-2048 OAEP with SHA-1 accepts: 256 - 2 * 20 - 2. */
  const OAEP_MAX: nat := 214

  /** `pubPem` and `priv` are the two halves of one key pair. */
  ghost predicate Matches<Priv>(oaep: Oaep<Priv>, pubPem: string, priv: Priv)
  {
    forall m: bytes :: |m| <= OAEP_MAX ==>
      oaep.encrypt(pubPem, m).Some? && oaep.decrypt(priv, oaep.encrypt(pubPem, m).value) == Some(m)
  }

  /** `rsa_encrypt_sym_keys`: pack, then OAEP-encrypt for the recipient. */
  function EncryptSymKeys<Priv>(oaep: Oaep<Priv>, inner: bytes, outer: bytes, ctr: bytes, pubPem: string): Option<bytes>
  {
    oaep.encrypt(pubPem, PackKeys(inner, outer, ctr))
  }

  /** `rsa_decrypt_sym_keys`: OAEP-decrypt, then unpack. */
  function DecryptSymKeys<Priv>(oaep: Oaep<Priv>, encBlob: bytes, priv: Priv): (r: Option<KeySet>)
    ensures r.Some? <==> oaep.decrypt(priv, encBlob).Some?
    ensures r.Some? ==> r.value.inner + r.value.outer + r.value.ctr == Slice(oaep.decrypt(priv, encBlob).value, 0, BLOB_LEN)
    ensures r.Some? && |oaep.decrypt(priv, encBlob).value| >= BLOB_LEN ==> ValidKeys(r.value)
  {
    match oaep.decrypt(priv, encBlob)
    case None => None
    case Some(blob) => Some(UnpackKeys(blob))
  }

  /** The recipient holding the matching private key recovers exactly the
      three keys the sender packed. */
  lemma SymKeysRoundTrip<Priv>(oaep: Oaep<Priv>, keys: KeySet, pubPem: string, priv: Priv)
    requires Matches(oaep, pubPem, priv)
    requires |keys.inner| == INNER_KEY_LEN && |keys.outer| == OUTER_KEY_LEN && |keys.ctr| == CTR_KEY_LEN
    ensures EncryptSymKeys(oaep, keys.inner, keys.outer, keys.ctr, pubPem).Some?
    ensures DecryptSymKeys(oaep, EncryptSymKeys(oaep, keys.inner, keys.outer, keys.ctr, pubPem).value, priv) == Some(keys)
  {
    var blob := PackKeys(keys.inner, keys.outer, keys.ctr);
    assert oaep.encrypt(pubPem, blob).Some?;
    UnpackPackKeys(keys);
  }

  // ------------------------------------------------------------ registry

  /** The shared public-key registry file: absent, or a JSON object mapping
      user names to PEM strings. */
  class PublicKeyRegistry {
    var file: Option<map<string, string>>

    constructor(contents: Option<map<string, string>>)
      ensures file == contents
    {
      file := contents;
    }

    /** What `load_public_keys` returns for the current file. */
    function Loaded(): map<string, string>
      reads this
    {
      if file.Some? then file.value else map[]
    }

    /** `load_public_keys`: the file's map, or the empty map when there is no
        registry yet. */
    method LoadPublicKeys() returns (keys: map<string, string>)
      ensures file.None? ==> keys == map[]
      ensures file.Some? ==> keys == file.value
    {
      keys := Loaded();
    }

    /** `save_public_key`: load, set one entry, write the whole map back. The
        user's entry becomes `pem`; every other user's entry is kept. */
    method SavePublicKey(username: string, pem: string)
      modifies this
      ensures file.Some? && file.value == old(Loaded())[username := pem]
      ensures username in Loaded() && Loaded()[username] == pem
      ensures Loaded().Keys == old(Loaded()).Keys + {username}
      ensures forall u :: u in old(Loaded()) && u != username ==> Loaded()[u] == old(Loaded())[u]
    {
      var keys := LoadPublicKeys();
      keys := keys[username := pem];
      file := Some(keys);
    }
  }
}
