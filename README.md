# Distributed steganography: a verified model of the transport core

This project models the code that moves a secret message through the
Distributed-Steganography system:

- **The chunk transport engine** (`src/utils/chunk_manager.py`).
  - Sending splits a message into `num_parts` contiguous chunks and pads
    the list with empty strings. Each chunk's index is encrypted with
    AES-CTR and its text with ChaCha20 and then ASCON-128. The list of
    pairs is then shuffled.
  - Receiving decrypts every pair and fails on the first layer that
    rejects. It then sorts the parts by recovered index and joins their
    texts.
- **The three cipher wrappers** (`src/crypto/`): their nonce framing and
  failure behaviour.
- **The LSB codec** (`src/stego/lsb_engine.py`). It hides a 32-bit length
  prefix and the payload bits in the low bits of the flattened RGB channel
  values, and reads them back.
- **The key blob and the public-key registry** (`helpers/rsa_utils.py`).
- **The 12-byte framing** that joins and splits `enc_seq_id + enc_content`
  between the two engines (`ui/panels/send.py`, `ui/panels/receive.py`,
  `app_config.py`).

The modules follow the program:

- `Bytes`: byte values, big-endian packing, XOR and Python slicing.
- `Sequences`: join and map over lists.
- `Ciphers`: the three cipher wrappers.
- `ChunkManager`: the chunk transport engine.
- `LsbEngine`: the steganography codec.
- `RsaUtils`: the key blob, RSA-OAEP and the public-key registry.
- `Pipeline`: the framing, and the end-to-end round trip.

Code that updates state is imperative Dafny:

- The padding and tagging loops of `split_and_prepare_payloads`.
- The decrypt loop of `reassemble_payloads`.
- The Fisher–Yates shuffle, over a sequence value.
- The embed loop over the flat channel array.
- The two accumulating loops of `extract_data`.
- The registry update.

Each method is proved against a specification function. The properties
are proved about those functions.

**Cryptographic primitives are parameters.**

- The ChaCha20 and AES keystreams are arbitrary functions. The ciphers
  XOR with them, so their round trips are proved.
- ASCON-128 sealing and opening, UTF-8 and RSA-OAEP are also arbitrary
  functions.
- Two predicates collect what the libraries promise. `Ciphers.Sound`
  states that ASCON with a 16-byte key and nonce appends a 16-byte tag and
  opens what it sealed, and that UTF-8 decoding inverts encoding.
  `RsaUtils.Matches` states that a key pair's decryption inverts its
  encryption for messages up to the OAEP size.
- A library exception is a `Failure` (or `None`) result, not a
  precondition.

**Behaviour of the code the model keeps:**

- **Capacity.** The capacity check compares the stream's bit count with
  `pixels.size // 3`, the pixel count, so a payload needs three channels
  per stream bit (`LsbEngine.FitsPixelCount`).
- **Three characters in five parts.** These give a chunk size of 1:
  three one-character chunks and two empty ones
  (`ChunkManager.ThreeCharsInFiveParts`).
- **Short images.** Reading an image too short for the prefix or the
  declared payload raises an uncaught index error. The model makes this a
  failure result (`ShortPrefix`, `ShortPayload`).
- **Wide length prefix.** `format(n, '032b')` writes more than 32 digits
  when `n >= 2^32`. `LsbEngine.PadBits` models that width. The round trip
  needs a payload below 2^32 bytes.
- **Tampered ids are not detected.** AES-CTR has no integrity check.
  Under a valid counter key, the "Sequence ID corrupted" alert therefore
  fires only for an id shorter than 8 bytes. With a counter key of the
  wrong length, `AES.new` fails for every id and the alert always fires.
  A tampered 12-byte id decrypts silently to some index
  (`ChunkManager.SeqIdAlertOnlyForShortIds`,
  `ChunkManager.BadCounterKeyAlwaysAlerts`,
  `ChunkManager.TwelveByteIdUnpacks`).

## Model

| member | source | states |
|---|---|---|
| Bytes.PackU32BE | src/utils/chunk_manager.py:27 | `struct.pack('>I', seq_id)` gives exactly four bytes, for an index below 2^32 |
| Bytes.UnpackU32BE | src/utils/chunk_manager.py:44 | `struct.unpack('>I', ...)` of four bytes gives an index below 2^32 |
| Bytes.UnpackPackU32 | src/utils/chunk_manager.py:44 | unpacking the four bytes packed at line 27 gives the index back |
| Bytes.PackUnpackU32 | src/utils/chunk_manager.py:44 | every four-byte string is the packing of the index it unpacks to |
| Bytes.BytesValueOfToBytesBE | src/stego/lsb_engine.py:18 | `v.to_bytes(n, 'big')` of a value below 256^n reads back as `v` |
| Bytes.ToBytesBEOfBytesValue | src/stego/lsb_engine.py:18 | re-packing a byte string's value at its own width returns the same bytes, leading zero bytes included |
| Bytes.Slice | ui/panels/receive.py:107-108 | Python's `s[i:j]` for non-negative bounds: `s[i..j]` in range, `s[i..]` when only `j` is past the end, empty when `j <= i` or `i` is past the end, never longer than the input |
| Ciphers.EncryptChaCha | src/crypto/chacha_cipher.py:3-15 | succeeds exactly for a 32-byte key, and then gives the 8-byte nonce followed by as many bytes as the UTF-8 encoding of the text |
| Ciphers.DecryptChaCha | src/crypto/chacha_cipher.py:17-35 | fails for a bad key or input shorter than 8 bytes; otherwise UTF-8-decodes the keystream XOR of the bytes after the nonce |
| Ciphers.ChaChaRoundTrip | src/crypto/chacha_cipher.py:12-31 | decrypting an encryption with the same key gives the text back |
| Ciphers.EncryptAscon | src/crypto/ascon_cipher.py:4-21 | succeeds exactly for a 16-byte key, and then gives the 16-byte nonce followed by the sealed data |
| Ciphers.DecryptAscon | src/crypto/ascon_cipher.py:23-49 | fails for a bad key or input shorter than 16 bytes; otherwise opens the rest under the leading 16-byte nonce |
| Ciphers.AsconRoundTrip | src/crypto/ascon_cipher.py:13-42 | an encryption is 32 bytes longer than the data and decrypts back to it |
| Ciphers.EncryptAes | src/crypto/aes_cipher.py:5-18 | succeeds exactly for a 16-, 24- or 32-byte key, and then gives the 8-byte nonce followed by as many bytes as the plaintext |
| Ciphers.DecryptAes | src/crypto/aes_cipher.py:20-34 | succeeds exactly for a valid key and at least 8 bytes, giving 8 bytes fewer than the input |
| Ciphers.AesRoundTrip | src/crypto/aes_cipher.py:14-30 | decrypting an encryption with the same key gives the plaintext back |
| ChunkManager.SlicesAt | src/utils/chunk_manager.py:17 | slice `j` starts inside the message and is `message[j*size:(j+1)*size]` |
| ChunkManager.SlicesCount | src/utils/chunk_manager.py:16-17 | a non-empty message gives `ceil(n / size)` slices, stated without division |
| ChunkManager.SlicesShape | src/utils/chunk_manager.py:17 | the slices join back to the message; there are none exactly when it is empty; all slices but the last have length `size`; every slice is non-empty and at most `size` long |
| ChunkManager.SliceCountAtMostParts | src/utils/chunk_manager.py:16-17 | the chunk size is at least 1 and the slice count never exceeds `num_parts` |
| ChunkManager.ChunksShape | src/utils/chunk_manager.py:14-19 | after padding there are exactly `num_parts` chunks: the slices, then only empty strings; they join back to the message |
| ChunkManager.Prepared | src/utils/chunk_manager.py:24-29 | the pre-shuffle list has one pair per chunk |
| ChunkManager.TagLengths | src/utils/chunk_manager.py:24-29 | every encrypted id is 12 bytes and every content is the chunk's UTF-8 length plus 40 bytes |
| ChunkManager.Shuffle | src/utils/chunk_manager.py:30 | whatever the random choices, the result is a permutation of the list |
| ChunkManager.SplitAndPreparePayloads | src/utils/chunk_manager.py:8-31 | raises exactly when `num_parts` is 0, the message is empty, a key has the wrong length or an index needs more than 32 bits, with that error; otherwise returns `num_parts` pairs forming a permutation of chunk `i` tagged with index `i` |
| ChunkManager.DecryptPayloadSound | src/utils/chunk_manager.py:41-51 | a recovered part's index is below 2^32 and packs back to the AES plaintext; its text is the ChaCha20 decryption of what ASCON opened |
| ChunkManager.SeqIdAlertOnlyForShortIds | src/utils/chunk_manager.py:41-43 | under a valid counter key, the "Sequence ID corrupted" failure happens exactly for ids shorter than 8 bytes |
| ChunkManager.BadCounterKeyAlwaysAlerts | src/crypto/aes_cipher.py:24-34 | with a counter key of the wrong length, every pair fails with "Sequence ID corrupted" |
| ChunkManager.TwelveByteIdUnpacks | src/utils/chunk_manager.py:41-44 | a 12-byte id never fails the AES layer or the unpack |
| ChunkManager.DecryptTag | src/utils/chunk_manager.py:41-51 | the receive body undoes the send body: a pair built for index `i` and text `t` decrypts to `(i, t)` |
| ChunkManager.DecryptAll | src/utils/chunk_manager.py:40-51 | it succeeds exactly when every pair decrypts, and then gives each pair's part in list order; otherwise it fails with the error of the first pair that does not decrypt |
| ChunkManager.FirstFailure | src/utils/chunk_manager.py:40-51 | if every pair before `i` decrypts and pair `i` does not, the loop raises pair `i`'s error |
| ChunkManager.InsertBySeqId | src/utils/chunk_manager.py:53 | inserting into an ordered list keeps it ordered and adds exactly the one part |
| ChunkManager.SortBySeqId | src/utils/chunk_manager.py:53 | the sort's result is ordered by index and is a permutation of its input |
| ChunkManager.SortStable | src/utils/chunk_manager.py:53 | the sort is stable: for each index, the parts carrying it keep their order |
| ChunkManager.SortKeepsDistinct | src/utils/chunk_manager.py:53 | sorting distinct indices gives distinct indices |
| ChunkManager.SortedUnique | src/utils/chunk_manager.py:53-54 | two ordered permutations of the same parts with distinct indices are equal |
| ChunkManager.ReassemblePayloads | src/utils/chunk_manager.py:33-54 | the method returns or raises exactly what the decrypt-sort-join specification gives |
| ChunkManager.DecryptPermuted | src/utils/chunk_manager.py:40-51 | decrypting a permutation of the pairs fails exactly when decrypting the original does, and otherwise gives a permutation of the same parts |
| ChunkManager.ReassembleFails | src/utils/chunk_manager.py:40-51 | reassembly raises exactly when some pair fails, with the first failing pair's error, and then returns no text |
| ChunkManager.ReassembleOrders | src/utils/chunk_manager.py:53-54 | a successful result joins an ordered permutation of the parts that keeps their arrival order within each index |
| ChunkManager.OrderIndependent | src/utils/chunk_manager.py:33-54 | permuted input fails or succeeds alike, and with distinct indices gives the same message |
| ChunkManager.DecryptPrepared | src/utils/chunk_manager.py:24-51 | the sender's list decrypts to chunk `i` with index `i`, in order |
| ChunkManager.GenuineDecrypts | src/utils/chunk_manager.py:24-51 | every pair of the sender's list, after any shuffle, decrypts |
| ChunkManager.RoundTrip | src/utils/chunk_manager.py:8-54 | reassembling any permutation of the prepared pairs with the same keys gives back the message |
| ChunkManager.ForgedContentFails | src/utils/chunk_manager.py:45-47 | a genuine id with content that ASCON rejects fails the ASCON layer, naming the index |
| ChunkManager.TamperedContentDetected | src/utils/chunk_manager.py:40-47 | replacing one shuffled pair's content with bytes ASCON rejects makes reassembly fail, naming the index that pair carried |
| ChunkManager.ElevenCharsInThreeParts | src/utils/chunk_manager.py:14-19 | "HELLO WORLD" in 3 parts is "HELL", "O WO", "RLD" |
| ChunkManager.ThreeCharsInFiveParts | src/utils/chunk_manager.py:14-19 | "abc" in 5 parts is "a", "b", "c", "", "" |
| LsbEngine.BinDigits | src/stego/lsb_engine.py:36 | the binary digits of a value are non-empty, binary, and denote the value |
| LsbEngine.PadBits | src/stego/lsb_engine.py:36 | `format(v, '0{w}b')` is binary, denotes `v`, is exactly `w` digits when `v < 2^w`, and is longer when `v >= 2^w` |
| LsbEngine.MsgToBinShape | src/stego/lsb_engine.py:9-10 | `msg_to_bin` of bytes is 8 binary digits per byte; digits `8i..8i+8` are byte `i` MSB first; the string denotes the bytes as a big-endian number |
| LsbEngine.BinToBytes | src/stego/lsb_engine.py:16-18 | succeeds exactly for a non-empty binary string, giving `ceil(len/8)` bytes whose big-endian value is the string's value |
| LsbEngine.BinToBytesOfMsgToBin | src/stego/lsb_engine.py:9-18 | `bin_to_bytes(msg_to_bin(b)) == b` for every non-empty `b` |
| LsbEngine.WriteBit | src/stego/lsb_engine.py:51-56 | `val & 254` or `val \| 1` changes only the low bit, which becomes the stream digit |
| LsbEngine.EmbedData | src/stego/lsb_engine.py:35-60 | returns nothing exactly when the stream is longer than the pixel count; otherwise returns the channels with stream bit `i` in channel `i`'s low bit and later channels unchanged |
| LsbEngine.WriteStream | src/stego/lsb_engine.py:48-57 | the in-place loop writes each stream bit into its channel and leaves every other channel as it was |
| LsbEngine.FitsPixelCount | src/stego/lsb_engine.py:39-44 | a payload fits exactly when there are `3 * (32 + 8 * len)` channels |
| LsbEngine.CarriesReadsBack | src/stego/lsb_engine.py:50-57 | embedding changes only low bits, and reading the low bits back gives the stream |
| LsbEngine.Extracted | src/stego/lsb_engine.py:62-87 | a successful extraction has exactly the length the 32-bit prefix declares, and its big-endian value is that of the next `8 * L` low bits; the short-payload error happens exactly when the channels run out before those bits end; the empty-payload error happens exactly when the prefix declares 0 |
| LsbEngine.ExtractData | src/stego/lsb_engine.py:75-87 | the two reading loops return or raise exactly what the extraction specification gives |
| LsbEngine.ExtractEmbedded | src/stego/lsb_engine.py:35-87 | extracting from a successful embed of a non-empty payload below 2^32 bytes gives the payload |
| LsbEngine.EmptyPayloadNotRecoverable | src/stego/lsb_engine.py:79-87 | an embedded empty payload reads back as the empty-payload error |
| RsaUtils.PackKeys | helpers/rsa_utils.py:41-43 | the blob is `inner`, then `outer`, then `ctr`, at fixed offsets |
| RsaUtils.UnpackKeys | helpers/rsa_utils.py:58 | the three keys together are the blob's first 64 bytes; a shorter blob gives `inner` the first 32 bytes or fewer and `outer` what remains of bytes 32-48; each key has its full length when the blob has 64 bytes |
| RsaUtils.UnpackPackKeys | helpers/rsa_utils.py:43-58 | keys of 32, 16 and 16 bytes come back out of their blob |
| RsaUtils.PackUnpackKeys | helpers/rsa_utils.py:57-58 | every 64-byte blob is the packing of what it unpacks to |
| RsaUtils.DecryptSymKeys | helpers/rsa_utils.py:47-58 | fails exactly when OAEP decryption does; the keys are the decrypted blob's first 64 bytes; a blob of at least 64 bytes gives keys the chunk engine accepts |
| RsaUtils.SymKeysRoundTrip | helpers/rsa_utils.py:31-58 | with a matching key pair, encryption succeeds and decryption returns the three keys |
| RsaUtils.PublicKeyRegistry.LoadPublicKeys | helpers/rsa_utils.py:8-12 | the registry's map, or the empty map when there is no registry file |
| RsaUtils.PublicKeyRegistry.SavePublicKey | helpers/rsa_utils.py:15-19 | afterwards the registry exists, maps the user to the new PEM, has one more name at most, and keeps every other user's entry |
| Pipeline.Frame | ui/panels/send.py:126 | the embedded data is as long as the id and content together |
| Pipeline.Unframe | ui/panels/receive.py:107-108 | the two parts rejoin to the input; the id is 12 bytes when the input has them; a shorter input gives empty content |
| Pipeline.UnframeFrame | ui/panels/receive.py:107-108 | splitting a frame whose id is 12 bytes gives the pair back |
| Pipeline.GenuineUnframes | src/crypto/aes_cipher.py:14-18 | every pair the sender makes has a 12-byte id, so its frame splits back into it |
| Pipeline.ImageRecovers | ui/panels/receive.py:105-109 | one image: extracting and splitting gives back the pair embedded in it |
| Pipeline.EndToEnd | ui/panels/send.py:121-128 | shuffled pairs framed and embedded one per cover are extracted, split and reassembled into the message |

## Left out

- Image I/O is not modelled. PIL decoding and saving, the RGB conversion
  and the numpy reshape are outside the model. The image is its flat
  channel sequence, and `EmbedData` returns the channels it would save
  instead of writing `output_path`.
- Failing to open an image (`extract_data` returning `None`,
  `embed_data` returning False) is I/O and is not modelled.
- Registry persistence is not modelled: the JSON file, `json.loads`,
  `json.dumps` and reading and writing files. The registry file is a field
  that is either absent or holds a map.
- The cipher internals are not modelled: ChaCha20, AES, ASCON-128,
  RSA-OAEP padding and UTF-8. They are parameters, and `Ciphers.Sound` and
  `RsaUtils.Matches` state only the round trips the code relies on.
- UTF-8 encoding is total in the model. A Python string with lone
  surrogates, which `encode('utf-8')` rejects, is not modelled.
- Randomness is not modelled as probability. The nonces are a parameter
  (`draw`), and the shuffle's choices are nondeterministic. `Oaep.encrypt`
  is a deterministic function, while `PKCS1_OAEP.encrypt` draws a fresh
  random seed on every call. The freshness of nonces, the randomness of
  OAEP and the uniformity of `random.shuffle` are probabilistic claims
  and are not stated.
- `ChunkManager.Shuffle`: `random.shuffle` permutes the list in place. The
  model swaps the elements of a sequence value and returns it. The caller
  owns the list, so no aliasing is lost.
- `generate_rsa_keypair` is not modelled: key generation is library code.
- `msg_to_bin` is modelled for `bytes` only. Callers use no other branch.
- `LsbEngine.BinToBytes`: it rejects every non-binary string, while
  `int(s, 2)` also accepts signs, underscores, whitespace and a `0b`
  prefix. `extract_data` only ever passes strings of '0' and '1'.
- The user interface is not modelled: `ui/*`, `app.py`,
  `helpers/session.py`, `helpers/inbox.py`, `main.py` and the `print`
  diagnostics. Only the 12-byte framing of the send and receive panels is
  modelled.
- `config.py` is not modelled: loading keys from the environment. The
  blob lengths it enforces (32, 16, 16) appear as constants in
  `RsaUtils`.
