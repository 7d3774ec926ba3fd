/** How the chunk engine and the LSB codec meet: each encrypted pair is
    framed as `enc_seq_id + enc_content` before it is embedded, and split at
    a fixed offset after it is extracted. */
module Pipeline {
  import opened Wrappers
  import opened Bytes
  import opened Ciphers
  import opened ChunkManager
  import opened LsbEngine

  /** The AES-CTR output for a 4-byte index: an 8-byte nonce and 4 bytes. */
  const ENC_SEQ_ID_LEN: nat := 12

  /** What the sender embeds for one pair. */
  function Frame(payload: Payload): (raw: bytes)
    ensures |raw| == |payload.encSeqId| + |payload.encContent|
  {
    payload.encSeqId + payload.encContent
  }

  /** `raw[:12], raw[12:]`, both clamping: a short input gives a short id and
      an empty content. */
  function Unframe(raw: bytes): (r: Payload)
    ensures Frame(r) == raw
    ensures |raw| >= ENC_SEQ_ID_LEN ==> |r.encSeqId| == ENC_SEQ_ID_LEN
    ensures |raw| < ENC_SEQ_ID_LEN ==> r.encContent == []
  {
    var r := Payload(Slice(raw, 0, ENC_SEQ_ID_LEN), Slice(raw, ENC_SEQ_ID_LEN, |raw|));
    assert |raw| >= ENC_SEQ_ID_LEN ==> raw == raw[..ENC_SEQ_ID_LEN] + raw[ENC_SEQ_ID_LEN..];
    r
  }

  /** The fixed split finds the boundary exactly when the id is 12 bytes. */
  lemma UnframeFrame(payload: Payload)
    requires |payload.encSeqId| == ENC_SEQ_ID_LEN
    ensures Unframe(Frame(payload)) == payload
  {
    var raw := Frame(payload);
    assert raw[..ENC_SEQ_ID_LEN] == payload.encSeqId;
    assert raw[ENC_SEQ_ID_LEN..] == payload.encContent;
  }

  /** Every pair the sender produces has a 12-byte id, so its frame splits
      back into it. */
  lemma GenuineUnframes(p: Primitives, message: string, k: nat, keys: KeySet,
                        draw: nat -> ChunkNonces, x: Payload)
    requires Sound(p) && SendFailure(message, k, keys) == None
    requires x in multiset(Prepared(p, message, k, keys, draw))
    ensures |Frame(x)| >= ENC_SEQ_ID_LEN && Unframe(Frame(x)) == x
  {
    var prepared := Prepared(p, message, k, keys, draw);
    var n :| 0 <= n < k && prepared[n] == x;
    ChunksShape(message, k);
    TagLengths(p, n, Chunks(message, k)[n], keys, draw(n));
    UnframeFrame(x);
  }

  /** One image: the frame of a genuine pair embedded in a cover is what
      extraction and the split give back. */
  lemma ImageRecovers(p: Primitives, message: string, k: nat, keys: KeySet, draw: nat -> ChunkNonces,
                      x: Payload, cover: seq<byte>, stego: seq<byte>)
    requires Sound(p) && SendFailure(message, k, keys) == None
    requires x in multiset(Prepared(p, message, k, keys, draw))
    requires |Frame(x)| < U32_LIMIT && Carries(cover, Stream(Frame(x)), stego)
    ensures Extracted(stego).Success? && Unframe(Extracted(stego).value) == x
  {
    GenuineUnframes(p, message, k, keys, draw, x);
    ExtractEmbedded(cover, Frame(x), stego);
  }

  /** End to end: the sender's pairs, shuffled, framed and embedded one per
      cover image, are extracted, split and reassembled into the message. */
  lemma EndToEnd(p: Primitives, message: string, k: nat, keys: KeySet, draw: nat -> ChunkNonces,
                 shuffled: seq<Payload>, covers: seq<seq<byte>>, stegos: seq<seq<byte>>)
    requires Sound(p) && SendFailure(message, k, keys) == None
    requires multiset(shuffled) == multiset(Prepared(p, message, k, keys, draw))
    requires |covers| == |stegos| == |shuffled|
    requires forall i :: 0 <= i < |shuffled| ==> |Frame(shuffled[i])| < U32_LIMIT
    requires forall i :: 0 <= i < |shuffled| ==> Carries(covers[i], Stream(Frame(shuffled[i])), stegos[i])
    ensures forall i :: 0 <= i < |stegos| ==> Extracted(stegos[i]).Success?
    ensures Reassembled(p, seq(|stegos|, i requires 0 <= i < |stegos| => Unframe(Extracted(stegos[i]).value)), keys)
            == Success(message)
  {
    forall i | 0 <= i < |stegos|
      ensures Extracted(stegos[i]).Success? && Unframe(Extracted(stegos[i]).value) == shuffled[i]
    {
      assert shuffled[i] in multiset(shuffled);
      ImageRecovers(p, message, k, keys, draw, shuffled[i], covers[i], stegos[i]);
    }
    var recovered := seq(|stegos|, i requires 0 <= i < |stegos| => Unframe(Extracted(stegos[i]).value));
    assert recovered == shuffled;
    RoundTrip(p, message, k, keys, draw, shuffled);
  }
}
