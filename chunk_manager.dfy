/** The chunk transport engine of src/utils/chunk_manager.py: splitting a
    message into `num_parts` chunks, tagging each with its encrypted
    sequence index, double-encrypting its text and shuffling the list on
    the way out; decrypting, sorting by index and joining on the way in. */
module ChunkManager {
  import opened Wrappers
  import opened Bytes
  import opened Ciphers
  import opened Sequences

  /** The three symmetric keys: ChaCha20 (inner), ASCON-128 (outer) and
      AES-CTR (sequence ids). */
  datatype KeySet = KeySet(inner: bytes, outer: bytes, ctr: bytes)

  /** The nonces the three encryptions of one chunk draw. */
  datatype ChunkNonces = ChunkNonces(chacha: Nonce8, ascon: Nonce16, aes: Nonce8)

  /** One `(enc_seq_id, double_enc_content)` pair. */
  datatype Payload = Payload(encSeqId: bytes, encContent: bytes)

  /** One `(seq_id, chunk_text)` pair recovered on the receiving side. */
  datatype Part = Part(seqId: nat, text: string)

  /** The exceptions `split_and_prepare_payloads` lets escape. */
  datatype SendError =
    | ZeroParts          // ZeroDivisionError computing the chunk size
    | EmptyMessage       // range(0, 0, 0): a step of zero
    | InnerKeyRejected   // ChaCha20 refuses a key that is not 32 bytes
    | OuterKeyRejected   // ASCON-128 refuses a key that is not 16 bytes
    | CtrKeyRejected     // AES refuses a key of another length than 16, 24 or 32
    | SeqIdOverflow      // struct.pack('>I', ...) on an index of 2^32 or more

  /** The exceptions `reassemble_payloads` raises. */
  datatype RecvError =
    | SeqIdCorrupted               // "Sequence ID corrupted!": AES decrypt gave None
    | SeqIdUnpackFailed(len: nat)  // struct.unpack('>I', ...) on other than 4 bytes
    | AsconFailed(seqId: nat)      // "ASCON Layer failed for chunk {seq_id}"
    | ChaChaFailed(seqId: nat)     // "ChaCha Layer failed for chunk {seq_id}"

  // ------------------------------------------------------------- chunking

  /** `ceil(n / k)`, written as the source does: `(n + k - 1) // k`. */
  function ChunkSize(n: nat, k: nat): nat
    requires k >= 1
  {
    (n + k - 1) / k
  }

  /** `[message[i:i + size] for i in range(0, len(message), size)]`. */
  function Slices(message: string, size: nat): (r: seq<string>)
    requires size >= 1
    decreases |message|
  {
    if message == [] then []
    else if |message| <= size then [message]
    else [message[..size]] + Slices(message[size..], size)
  }

  /** The slices are the contiguous runs `message[j * size : (j + 1) * size]`,
      and there are `ceil(n / size)` of them. */
  lemma {:induction false} SlicesAt(message: string, size: nat, j: nat)
    requires size >= 1 && j < |Slices(message, size)|
    ensures j * size < |message|
    ensures Slices(message, size)[j] == Slice(message, j * size, j * size + size)
    decreases |message|
  {
    if j == 0 {
      assert j * size == 0;
    } else {
      var rest := message[size..];
      assert Slices(message, size)[j] == Slices(rest, size)[j - 1];
      SlicesAt(rest, size, j - 1);
      var a := (j - 1) * size;
      assert j * size == a + size;
      SliceShift(message, size, a, a + size);
    }
  }

  lemma SliceShift(s: string, d: nat, i: nat, j: nat)
    requires d <= |s| && i <= j
    ensures Slice(s[d..], i, j) == Slice(s, i + d, j + d)
  {
  }

  /** `ceil(n / size)` slices, stated without division. */
  lemma {:induction false} SlicesCount(message: string, size: nat)
    requires size >= 1 && |message| >= 1
    ensures (|Slices(message, size)| - 1) * size < |message| <= |Slices(message, size)| * size
    decreases |message|
  {
    if |message| > size {
      var rest := |Slices(message[size..], size)|;
      SlicesCount(message[size..], size);
      assert (rest - 1) * size == rest * size - size;
      assert (rest + 1) * size == rest * size + size;
    }
  }

  /** The slices concatenate back to the message; every slice is `size`
      long except the last, which is non-empty and at most `size` long. */
  lemma {:induction false} SlicesShape(message: string, size: nat)
    requires size >= 1
    ensures Concat(Slices(message, size)) == message
    ensures |message| > 0 <==> |Slices(message, size)| > 0
    ensures forall j :: 0 <= j < |Slices(message, size)| - 1 ==> |Slices(message, size)[j]| == size
    ensures forall j :: 0 <= j < |Slices(message, size)| ==> 0 < |Slices(message, size)[j]| <= size
    decreases |message|
  {
    var s := Slices(message, size);
    if message == [] {
    } else if |message| <= size {
      assert Concat(s) == message + Concat([]);
    } else {
      var rest := Slices(message[size..], size);
      SlicesShape(message[size..], size);
      assert s == [message[..size]] + rest;
      assert s[1..] == rest;
      assert message == message[..size] + message[size..];
    }
  }

  /** There are never more slices than parts: `ceil(n / ceil(n / k)) <= k`. */
  lemma SliceCountAtMostParts(message: string, k: nat)
    requires k >= 1 && |message| >= 1
    ensures ChunkSize(|message|, k) >= 1
    ensures |Slices(message, ChunkSize(|message|, k))| <= k
  {
    var n, c := |message|, ChunkSize(|message|, k);
    var count := |Slices(message, c)|;
    SlicesCount(message, c);
    assert c * k >= n;
    MulCancel(count - 1, k, c);
  }

  lemma MulCancel(x: int, m: nat, c: nat)
    requires c >= 1 && x * c < m * c
    ensures x < m
  {
  }

  /** The chunk list after the `while len(chunks) < num_parts` padding loop:
      the slices followed by as many empty strings as are missing. */
  function Chunks(message: string, k: nat): seq<string>
    requires k >= 1 && |message| >= 1
  {
    SliceCountAtMostParts(message, k);
    var sliced := Slices(message, ChunkSize(|message|, k));
    sliced + seq(if |sliced| < k then k - |sliced| else 0, _ => "")
  }

  /** Exactly `num_parts` chunks; the real slices first, then only empty
      padding; together they spell the message. */
  lemma ChunksShape(message: string, k: nat)
    requires k >= 1 && |message| >= 1
    ensures |Chunks(message, k)| == k
    ensures Chunks(message, k)[..|Slices(message, ChunkSize(|message|, k))|]
            == Slices(message, ChunkSize(|message|, k))
    ensures forall i :: |Slices(message, ChunkSize(|message|, k))| <= i < k ==> Chunks(message, k)[i] == ""
    ensures Concat(Chunks(message, k)) == message
  {
    var c := ChunkSize(|message|, k);
    var sliced := Slices(message, c);
    SliceCountAtMostParts(message, k);
    SlicesShape(message, c);
    var padding := seq(k - |sliced|, _ => "");
    assert Chunks(message, k) == sliced + padding;
    ConcatAppend(sliced, padding);
    ConcatOfEmpties(padding);
  }

  // -------------------------------------------------------------- tagging

  predicate ValidKeys(keys: KeySet)
  {
    ChaChaKey(keys.inner) && AsconKey(keys.outer) && AesKey(keys.ctr)
  }

  /** The exception, if any, that `split_and_prepare_payloads` raises, in the
      order the code reaches them: the chunk size, the range, then the first
      chunk's three encryptions, then the first index that does not fit
      32 bits. */
  function SendFailure(message: string, k: nat, keys: KeySet): Option<SendError>
  {
    if k == 0 then Some(ZeroParts)
    else if |message| == 0 then Some(EmptyMessage)
    else if !ChaChaKey(keys.inner) then Some(InnerKeyRejected)
    else if !AsconKey(keys.outer) then Some(OuterKeyRejected)
    else if !AesKey(keys.ctr) then Some(CtrKeyRejected)
    else if k > U32_LIMIT then Some(SeqIdOverflow)
    else None
  }

  /** The pair built for chunk `seqId` (loop body, lines 24-29). */
  function Tag(p: Primitives, seqId: nat, text: string, keys: KeySet, nonces: ChunkNonces): Payload
    requires ValidKeys(keys) && seqId < U32_LIMIT
  {
    var innerData := EncryptChaCha(p, text, keys.inner, nonces.chacha).value;
    var doubleEncContent := EncryptAscon(p, innerData, keys.outer, nonces.ascon).value;
    var encSeqId := EncryptAes(p, PackU32BE(seqId), keys.ctr, nonces.aes).value;
    Payload(encSeqId, doubleEncContent)
  }

  /** The list of pairs before the shuffle: chunk `i` paired with its index. */
  function Prepared(p: Primitives, message: string, k: nat, keys: KeySet, draw: nat -> ChunkNonces): (r: seq<Payload>)
    requires SendFailure(message, k, keys) == None
    ensures |r| == k
  {
    ChunksShape(message, k);
    var chunks := Chunks(message, k);
    seq(k, i requires 0 <= i < k => Tag(p, i, chunks[i], keys, draw(i)))
  }

  /** Every id is 12 bytes (8-byte nonce, 4-byte ciphertext) and every
      content is the chunk's UTF-8 length plus 8 + 16 + 16 bytes. */
  lemma TagLengths(p: Primitives, seqId: nat, text: string, keys: KeySet, nonces: ChunkNonces)
    requires Sound(p) && ValidKeys(keys) && seqId < U32_LIMIT
    ensures |Tag(p, seqId, text, keys, nonces).encSeqId| == 12
    ensures |Tag(p, seqId, text, keys, nonces).encContent| == |p.utf8Encode(text)| + 40
  {
    var innerData := EncryptChaCha(p, text, keys.inner, nonces.chacha).value;
    AsconRoundTrip(p, innerData, keys.outer, nonces.ascon);
  }

  // -------------------------------------------------------------- sending

  /** `random.shuffle`: CPython's Fisher-Yates pass, with each
      `randbelow(i + 1)` left as a nondeterministic choice. Whatever the
      choices, the result is a permutation of the input. */
  method Shuffle<T>(s: seq<T>) returns (r: seq<T>)
    ensures |r| == |s| && multiset(r) == multiset(s)
  {
    r := s;
    var i := |r|;
    while i > 1
      invariant i <= |r| == |s|
      invariant multiset(r) == multiset(s)
    {
      i := i - 1;
      var j :| 0 <= j <= i;
      r := r[i := r[j]][j := r[i]];
    }
  }

  /** `split_and_prepare_payloads`. Fresh nonces are the only randomness
      besides the shuffle; `draw(i)` gives those of chunk `i`. */
  method SplitAndPreparePayloads(
    p: Primitives, message: string, numParts: nat, keys: KeySet, draw: nat -> ChunkNonces)
    returns (r: Result<seq<Payload>, SendError>)
    ensures r.Failure? <==> SendFailure(message, numParts, keys).Some?
    ensures r.Failure? ==> r.error == SendFailure(message, numParts, keys).value
    ensures r.Success? ==> |r.value| == numParts
    ensures r.Success? ==> multiset(r.value) == multiset(Prepared(p, message, numParts, keys, draw))
  {
    var n := |message|;
    var k := numParts;
    if k == 0 {
      return Failure(ZeroParts);
    }
    var chunkSize := (n + k - 1) / k;
    if chunkSize == 0 {
      return Failure(EmptyMessage);
    }
    var chunks := Slices(message, chunkSize);
    ghost var sliced := chunks;
    SliceCountAtMostParts(message, numParts);
    while |chunks| < numParts
      invariant |sliced| <= |chunks| <= numParts
      invariant chunks == sliced + seq(|chunks| - |sliced|, _ => "")
      decreases numParts - |chunks|
    {
      chunks := chunks + [""];
    }
    assert chunks == Chunks(message, numParts);

    var payloads: seq<Payload> := [];
    for seqId := 0 to |chunks|
      invariant seqId > 0 ==> ValidKeys(keys)
      invariant seqId <= U32_LIMIT
      invariant |payloads| == seqId
      invariant forall i :: 0 <= i < seqId ==> payloads[i] == Tag(p, i, chunks[i], keys, draw(i))
    {
      var nonces := draw(seqId);
      var innerData := EncryptChaCha(p, chunks[seqId], keys.inner, nonces.chacha);
      if innerData.None? {
        return Failure(InnerKeyRejected);
      }
      var doubleEncContent := EncryptAscon(p, innerData.value, keys.outer, nonces.ascon);
      if doubleEncContent.None? {
        return Failure(OuterKeyRejected);
      }
      if seqId >= U32_LIMIT {
        return Failure(SeqIdOverflow);
      }
      var seqBytes := PackU32BE(seqId);
      var encSeqId := EncryptAes(p, seqBytes, keys.ctr, nonces.aes);
      if encSeqId.None? {
        return Failure(CtrKeyRejected);
      }
      payloads := payloads + [Payload(encSeqId.value, doubleEncContent.value)];
    }
    assert payloads == Prepared(p, message, numParts, keys, draw);
    payloads := Shuffle(payloads);
    return Success(payloads);
  }

  // ------------------------------------------------------------ receiving

  /** The loop body of `reassemble_payloads` for one pair (lines 41-51). */
  function DecryptPayload(p: Primitives, payload: Payload, keys: KeySet): Result<Part, RecvError>
  {
    match DecryptAes(p, payload.encSeqId, keys.ctr)
    case None => Failure(SeqIdCorrupted)
    case Some(seqBytes) =>
      if |seqBytes| != 4 then Failure(SeqIdUnpackFailed(|seqBytes|))
      else
        var seqId := UnpackU32BE(seqBytes);
        match DecryptAscon(p, payload.encContent, keys.outer)
        case None => Failure(AsconFailed(seqId))
        case Some(innerData) =>
          match DecryptChaCha(p, innerData, keys.inner)
          case None => Failure(ChaChaFailed(seqId))
          case Some(chunkText) => Success(Part(seqId, chunkText))
  }

  /** A recovered part is what the layers of its pair decrypt to: its id
      packs back to the 4-byte AES plaintext, and its text is ChaCha20 of
      what ASCON opened. */
  lemma DecryptPayloadSound(p: Primitives, payload: Payload, keys: KeySet, part: Part)
    requires DecryptPayload(p, payload, keys) == Success(part)
    ensures part.seqId < U32_LIMIT
    ensures DecryptAes(p, payload.encSeqId, keys.ctr) == Some(PackU32BE(part.seqId))
    ensures DecryptAscon(p, payload.encContent, keys.outer).Some?
    ensures DecryptChaCha(p, DecryptAscon(p, payload.encContent, keys.outer).value, keys.inner) == Some(part.text)
  {
    PackUnpackU32(DecryptAes(p, payload.encSeqId, keys.ctr).value);
  }

  /** Counter mode has no integrity check, so the "Sequence ID corrupted"
      alert cannot fire for an id of at least 8 bytes under a valid key: a
      tampered id decrypts to some index instead. */
  lemma SeqIdAlertOnlyForShortIds(p: Primitives, payload: Payload, keys: KeySet)
    requires AesKey(keys.ctr)
    ensures DecryptPayload(p, payload, keys) == Failure(SeqIdCorrupted) <==> |payload.encSeqId| < 8
  {
  }

  /** A counter key of the wrong length makes `AES.new` raise inside the
      `try`, so the alert fires for every pair whatever its id. */
  lemma BadCounterKeyAlwaysAlerts(p: Primitives, payload: Payload, keys: KeySet)
    requires !AesKey(keys.ctr)
    ensures DecryptPayload(p, payload, keys) == Failure(SeqIdCorrupted)
  {
  }

  /** An id of 12 bytes always unpacks, to whatever index its last four
      decrypted bytes spell. */
  lemma TwelveByteIdUnpacks(p: Primitives, payload: Payload, keys: KeySet)
    requires AesKey(keys.ctr) && |payload.encSeqId| == 12
    ensures DecryptPayload(p, payload, keys) != Failure(SeqIdCorrupted)
    ensures DecryptPayload(p, payload, keys).Failure? ==> !DecryptPayload(p, payload, keys).error.SeqIdUnpackFailed?
  {
  }

  /** Every pair the sender prepared decrypts to its chunk and index. */
  lemma DecryptTag(p: Primitives, seqId: nat, text: string, keys: KeySet, nonces: ChunkNonces)
    requires Sound(p) && ValidKeys(keys) && seqId < U32_LIMIT
    ensures DecryptPayload(p, Tag(p, seqId, text, keys, nonces), keys) == Success(Part(seqId, text))
  {
    var innerData := EncryptChaCha(p, text, keys.inner, nonces.chacha).value;
    AesRoundTrip(p, PackU32BE(seqId), keys.ctr, nonces.aes);
    UnpackPackU32(seqId);
    AsconRoundTrip(p, innerData, keys.outer, nonces.ascon);
    ChaChaRoundTrip(p, text, keys.inner, nonces.chacha);
  }

  /** The decrypt loop over a whole list: it succeeds exactly when every pair
      decrypts, then yields their parts in list order; otherwise it fails
      with the error of the first pair that does not decrypt. */
  function DecryptAll(p: Primitives, payloads: seq<Payload>, keys: KeySet): (r: Result<seq<Part>, RecvError>)
    ensures r.Success? <==> forall i :: 0 <= i < |payloads| ==> DecryptPayload(p, payloads[i], keys).Success?
    ensures r.Success? ==> |r.value| == |payloads|
    ensures r.Success? ==> forall i :: 0 <= i < |payloads| ==> r.value[i] == DecryptPayload(p, payloads[i], keys).value
    ensures r.Failure? ==>
              exists i :: 0 <= i < |payloads| && DecryptPayload(p, payloads[i], keys) == Failure(r.error)
                && forall j :: 0 <= j < i ==> DecryptPayload(p, payloads[j], keys).Success?
    decreases |payloads|
  {
    if payloads == [] then Success([])
    else
      var init, last := payloads[..|payloads| - 1], payloads[|payloads| - 1];
      assert payloads == init + [last];
      var rest := DecryptAll(p, init, keys);
      if rest.Failure? then rest
      else
        var d := DecryptPayload(p, last, keys);
        if d.Failure? then
          assert DecryptPayload(p, payloads[|init|], keys) == d;
          Failure(d.error)
        else Success(rest.value + [d.value])
  }

  // -------------------------------------------------------------- sorting

  predicate SortedBySeqId(parts: seq<Part>)
  {
    forall i, j :: 0 <= i < j < |parts| ==> parts[i].seqId <= parts[j].seqId
  }

  predicate DistinctIds(parts: seq<Part>)
  {
    forall i, j :: 0 <= i < j < |parts| ==> parts[i].seqId != parts[j].seqId
  }

  /** Insert `x` after every part whose id is not larger than its own. */
  function InsertBySeqId(sorted: seq<Part>, x: Part): (r: seq<Part>)
    requires SortedBySeqId(sorted)
    ensures SortedBySeqId(r)
    ensures multiset(r) == multiset(sorted) + multiset{x}
    decreases |sorted|
  {
    if sorted == [] || sorted[|sorted| - 1].seqId <= x.seqId then sorted + [x]
    else
      var init, last := sorted[..|sorted| - 1], sorted[|sorted| - 1];
      assert sorted == init + [last];
      var inserted := InsertBySeqId(init, x);
      AllAtMost(inserted, init, x, last.seqId);
      SortedSnoc(inserted, last);
      assert multiset(inserted + [last]) == multiset(inserted) + multiset{last};
      inserted + [last]
  }

  lemma SortedSnoc(s: seq<Part>, y: Part)
    requires SortedBySeqId(s) && forall i :: 0 <= i < |s| ==> s[i].seqId <= y.seqId
    ensures SortedBySeqId(s + [y])
  {
  }

  lemma AllAtMost(inserted: seq<Part>, init: seq<Part>, x: Part, bound: nat)
    requires multiset(inserted) == multiset(init) + multiset{x}
    requires x.seqId <= bound && forall i :: 0 <= i < |init| ==> init[i].seqId <= bound
    ensures forall i :: 0 <= i < |inserted| ==> inserted[i].seqId <= bound
  {
    forall i | 0 <= i < |inserted|
      ensures inserted[i].seqId <= bound
    {
      assert inserted[i] in multiset(inserted);
      if inserted[i] != x {
        assert inserted[i] in multiset(init);
      }
    }
  }

  /** `list.sort(key=lambda x: x[0])`: a stable sort on the id, here as
      insertion sort. The result is ordered and a permutation of the input. */
  function SortBySeqId(parts: seq<Part>): (r: seq<Part>)
    ensures SortedBySeqId(r)
    ensures multiset(r) == multiset(parts)
    decreases |parts|
  {
    if parts == [] then []
    else
      var init := parts[..|parts| - 1];
      assert parts == init + [parts[|parts| - 1]];
      InsertBySeqId(SortBySeqId(init), parts[|parts| - 1])
  }

  /** The parts that carry a given id, in list order. */
  function WithId(parts: seq<Part>, id: nat): seq<Part>
  {
    if parts == [] then []
    else WithId(parts[..|parts| - 1], id) + (if parts[|parts| - 1].seqId == id then [parts[|parts| - 1]] else [])
  }

  lemma {:induction false} WithIdAppend(a: seq<Part>, b: seq<Part>, id: nat)
    ensures WithId(a + b, id) == WithId(a, id) + WithId(b, id)
    decreases |b|
  {
    if b == [] {
      assert a + b == a;
    } else {
      assert (a + b)[..|a + b| - 1] == a + b[..|b| - 1];
      WithIdAppend(a, b[..|b| - 1], id);
    }
  }

  lemma WithIdSingle(x: Part, id: nat)
    ensures WithId([x], id) == if x.seqId == id then [x] else []
  {
    assert [x][..0] == [];
  }

  lemma {:induction false} InsertStable(sorted: seq<Part>, x: Part, id: nat)
    requires SortedBySeqId(sorted)
    ensures WithId(InsertBySeqId(sorted, x), id) == WithId(sorted, id) + WithId([x], id)
    decreases |sorted|
  {
    if sorted == [] || sorted[|sorted| - 1].seqId <= x.seqId {
      WithIdAppend(sorted, [x], id);
    } else {
      var init, last := sorted[..|sorted| - 1], sorted[|sorted| - 1];
      assert sorted == init + [last];
      var inserted := InsertBySeqId(init, x);
      assert InsertBySeqId(sorted, x) == inserted + [last];
      InsertStable(init, x, id);
      WithIdAppend(inserted, [last], id);
      WithIdAppend(init, [last], id);
      WithIdSingle(x, id);
      WithIdSingle(last, id);
      SwapDisjoint(WithId(init, id), WithId([x], id), WithId([last], id));
    }
  }

  lemma SwapDisjoint<T>(a: seq<T>, b: seq<T>, c: seq<T>)
    requires b == [] || c == []
    ensures a + b + c == a + c + b
  {
    if b == [] {
      assert a + b == a && c + b == c;
    } else {
      assert a + c == a && b + c == b;
    }
  }

  /** The sort is stable: for every id, the parts with that id keep their
      relative order. */
  lemma {:induction false} SortStable(parts: seq<Part>, id: nat)
    ensures WithId(SortBySeqId(parts), id) == WithId(parts, id)
    decreases |parts|
  {
    if parts != [] {
      var init := parts[..|parts| - 1];
      SortStable(init, id);
      InsertStable(SortBySeqId(init), parts[|parts| - 1], id);
      assert [] + [parts[|parts| - 1]] == [parts[|parts| - 1]];
    }
  }

  lemma {:induction false} WithIdNone(parts: seq<Part>, id: nat)
    requires forall i :: 0 <= i < |parts| ==> parts[i].seqId != id
    ensures WithId(parts, id) == []
    decreases |parts|
  {
    if parts != [] {
      WithIdNone(parts[..|parts| - 1], id);
    }
  }

  lemma {:induction false} WithIdHas(parts: seq<Part>, i: nat)
    requires i < |parts|
    ensures |WithId(parts, parts[i].seqId)| >= 1
    decreases |parts|
  {
    var init := parts[..|parts| - 1];
    if i < |parts| - 1 {
      assert init[i] == parts[i];
      WithIdHas(init, i);
    }
  }

  /** Distinct ids means at most one part per id. */
  lemma {:induction false} DistinctIdsCount(parts: seq<Part>)
    ensures DistinctIds(parts) <==> forall id :: |WithId(parts, id)| <= 1
  {
    if DistinctIds(parts) {
      forall id ensures |WithId(parts, id)| <= 1 {
        DistinctAtMostOne(parts, id);
      }
    } else {
      var i, j :| 0 <= i < j < |parts| && parts[i].seqId == parts[j].seqId;
      DuplicateTwice(parts, i, j);
    }
  }

  lemma {:induction false} DistinctAtMostOne(parts: seq<Part>, id: nat)
    requires DistinctIds(parts)
    ensures |WithId(parts, id)| <= 1
    decreases |parts|
  {
    if parts != [] {
      var init, last := parts[..|parts| - 1], parts[|parts| - 1];
      assert forall i :: 0 <= i < |init| ==> init[i] == parts[i];
      DistinctAtMostOne(init, id);
      if last.seqId == id {
        WithIdNone(init, id);
      }
    }
  }

  lemma {:induction false} DuplicateTwice(parts: seq<Part>, i: nat, j: nat)
    requires i < j < |parts| && parts[i].seqId == parts[j].seqId
    ensures |WithId(parts, parts[i].seqId)| >= 2
    decreases |parts|
  {
    var init, last := parts[..|parts| - 1], parts[|parts| - 1];
    assert init[i] == parts[i];
    if j == |parts| - 1 {
      WithIdHas(init, i);
    } else {
      assert init[j] == parts[j];
      DuplicateTwice(init, i, j);
    }
  }

  /** Sorting keeps ids distinct. */
  lemma SortKeepsDistinct(parts: seq<Part>)
    requires DistinctIds(parts)
    ensures DistinctIds(SortBySeqId(parts))
  {
    DistinctIdsCount(parts);
    forall id ensures |WithId(SortBySeqId(parts), id)| <= 1 {
      SortStable(parts, id);
    }
    DistinctIdsCount(SortBySeqId(parts));
  }

  /** With distinct ids there is one sorted order: two sorted permutations of
      the same parts are equal. */
  lemma {:induction false} SortedUnique(a: seq<Part>, b: seq<Part>)
    requires SortedBySeqId(a) && SortedBySeqId(b) && DistinctIds(a)
    requires multiset(a) == multiset(b)
    ensures a == b
    decreases |a|
  {
    assert |b| == |multiset(b)| == |multiset(a)| == |a|;
    if a != [] {
      SameHead(a, b);
      TailMultiset(a);
      TailMultiset(b);
      SortedUnique(a[1..], b[1..]);
      assert a == [a[0]] + a[1..] && b == [b[0]] + b[1..];
    }
  }

  /** The smallest of distinct ids comes first in both orders. */
  lemma SameHead(a: seq<Part>, b: seq<Part>)
    requires SortedBySeqId(a) && SortedBySeqId(b) && DistinctIds(a)
    requires multiset(a) == multiset(b) && |a| > 0
    ensures |b| > 0 && a[0] == b[0]
  {
    assert a[0] in multiset(b);
    var j :| 0 <= j < |b| && b[j] == a[0];
    assert b[0] in multiset(a);
    var i :| 0 <= i < |a| && a[i] == b[0];
    assert a[0].seqId <= a[i].seqId == b[0].seqId <= b[j].seqId == a[0].seqId;
  }

  lemma TailMultiset<T>(s: seq<T>)
    requires |s| > 0
    ensures multiset(s[1..]) == multiset(s) - multiset{s[0]}
  {
    assert s == [s[0]] + s[1..];
  }

  // ---------------------------------------------------------- reassembling

  /** `"".join(part[1] for part in decrypted_parts)`. */
  function Join(parts: seq<Part>): string
  {
    Concat(MapSeq((part: Part) => part.text, parts))
  }

  /** What `reassemble_payloads` returns or raises. */
  function Reassembled(p: Primitives, payloads: seq<Payload>, keys: KeySet): Result<string, RecvError>
  {
    match DecryptAll(p, payloads, keys)
    case Failure(e) => Failure(e)
    case Success(parts) => Success(Join(SortBySeqId(parts)))
  }

  /** `reassemble_payloads`. */
  method ReassemblePayloads(p: Primitives, shuffledPayloads: seq<Payload>, keys: KeySet)
    returns (r: Result<string, RecvError>)
    ensures r == Reassembled(p, shuffledPayloads, keys)
  {
    var decryptedParts: seq<Part> := [];
    for i := 0 to |shuffledPayloads|
      invariant DecryptAll(p, shuffledPayloads[..i], keys) == Success(decryptedParts)
    {
      var payload := shuffledPayloads[i];
      assert shuffledPayloads[..i + 1][..i] == shuffledPayloads[..i];
      var seqBytes := DecryptAes(p, payload.encSeqId, keys.ctr);
      if seqBytes.None? {
        FirstFailure(p, shuffledPayloads, keys, i);
        return Failure(SeqIdCorrupted);
      }
      if |seqBytes.value| != 4 {
        FirstFailure(p, shuffledPayloads, keys, i);
        return Failure(SeqIdUnpackFailed(|seqBytes.value|));
      }
      var seqId := UnpackU32BE(seqBytes.value);
      var innerData := DecryptAscon(p, payload.encContent, keys.outer);
      if innerData.None? {
        FirstFailure(p, shuffledPayloads, keys, i);
        return Failure(AsconFailed(seqId));
      }
      var chunkText := DecryptChaCha(p, innerData.value, keys.inner);
      if chunkText.None? {
        FirstFailure(p, shuffledPayloads, keys, i);
        return Failure(ChaChaFailed(seqId));
      }
      decryptedParts := decryptedParts + [Part(seqId, chunkText.value)];
    }
    assert shuffledPayloads[..|shuffledPayloads|] == shuffledPayloads;
    var sorted := SortBySeqId(decryptedParts);
    return Success(Join(sorted));
  }

  /** When every pair before `i` decrypts and pair `i` does not, the whole
      reassembly fails with pair `i`'s error. */
  lemma {:induction false} FirstFailure(p: Primitives, payloads: seq<Payload>, keys: KeySet, i: nat)
    requires i < |payloads|
    requires DecryptAll(p, payloads[..i], keys).Success?
    requires DecryptPayload(p, payloads[i], keys).Failure?
    ensures DecryptAll(p, payloads, keys) == Failure(DecryptPayload(p, payloads[i], keys).error)
    decreases |payloads|
  {
    var init := payloads[..|payloads| - 1];
    if i < |payloads| - 1 {
      assert init[..i] == payloads[..i] && init[i] == payloads[i];
      FirstFailure(p, init, keys, i);
    } else {
      assert init == payloads[..i];
    }
  }

  // ------------------------------------------------------------ properties

  /** The part a pair decrypts to, or a placeholder when it does not. */
  function PartOf(p: Primitives, keys: KeySet): Payload -> Part
  {
    (x: Payload) => var d := DecryptPayload(p, x, keys); if d.Success? then d.value else Part(0, "")
  }

  /** Decrypting a permutation of a list: it fails exactly when the original
      does, and otherwise recovers a permutation of the same parts. */
  lemma DecryptPermuted(p: Primitives, s: seq<Payload>, t: seq<Payload>, keys: KeySet)
    requires multiset(s) == multiset(t)
    ensures DecryptAll(p, s, keys).Success? <==> DecryptAll(p, t, keys).Success?
    ensures DecryptAll(p, s, keys).Success? ==>
              multiset(DecryptAll(p, s, keys).value) == multiset(DecryptAll(p, t, keys).value)
  {
    var decrypt := (x: Payload) => DecryptPayload(p, x, keys);
    MultisetMap(decrypt, s, t);
    if DecryptAll(p, t, keys).Success? {
      AllSucceedTransfer(p, s, t, keys, decrypt);
    }
    if DecryptAll(p, s, keys).Success? {
      AllSucceedTransfer(p, t, s, keys, decrypt);
    }
    if DecryptAll(p, s, keys).Success? {
      var partOf := PartOf(p, keys);
      assert DecryptAll(p, s, keys).value == MapSeq(partOf, s);
      assert DecryptAll(p, t, keys).value == MapSeq(partOf, t);
      MultisetMap(partOf, s, t);
    }
  }

  lemma AllSucceedTransfer(p: Primitives, s: seq<Payload>, t: seq<Payload>, keys: KeySet,
                           decrypt: Payload -> Result<Part, RecvError>)
    requires forall x :: decrypt(x) == DecryptPayload(p, x, keys)
    requires multiset(MapSeq(decrypt, s)) == multiset(MapSeq(decrypt, t))
    requires forall i :: 0 <= i < |t| ==> DecryptPayload(p, t[i], keys).Success?
    ensures forall i :: 0 <= i < |s| ==> DecryptPayload(p, s[i], keys).Success?
  {
    forall i | 0 <= i < |s|
      ensures DecryptPayload(p, s[i], keys).Success?
    {
      var r := MapSeq(decrypt, s)[i];
      assert r in multiset(MapSeq(decrypt, t));
      var j :| 0 <= j < |t| && MapSeq(decrypt, t)[j] == r;
    }
  }

  /** `reassemble_payloads` raises exactly when some pair fails to decrypt,
      and then with the error of the first such pair in input order; it
      never returns part of the message. */
  lemma ReassembleFails(p: Primitives, payloads: seq<Payload>, keys: KeySet)
    ensures Reassembled(p, payloads, keys).Failure? <==>
              exists i :: 0 <= i < |payloads| && DecryptPayload(p, payloads[i], keys).Failure?
    ensures Reassembled(p, payloads, keys).Failure? ==>
              exists i :: 0 <= i < |payloads|
                && DecryptPayload(p, payloads[i], keys) == Failure(Reassembled(p, payloads, keys).error)
                && forall j :: 0 <= j < i ==> DecryptPayload(p, payloads[j], keys).Success?
  {
  }

  /** On success the message is the chunk texts joined in ascending id
      order, ties kept in arrival order. */
  lemma ReassembleOrders(p: Primitives, payloads: seq<Payload>, keys: KeySet)
    requires Reassembled(p, payloads, keys).Success?
    ensures exists sorted: seq<Part> ::
              && SortedBySeqId(sorted)
              && multiset(sorted) == multiset(DecryptAll(p, payloads, keys).value)
              && (forall id: nat :: WithId(sorted, id) == WithId(DecryptAll(p, payloads, keys).value, id))
              && Reassembled(p, payloads, keys) == Success(Join(sorted))
  {
    var parts := DecryptAll(p, payloads, keys).value;
    forall id: nat ensures WithId(SortBySeqId(parts), id) == WithId(parts, id) {
      SortStable(parts, id);
    }
  }

  /** Arrival order does not matter: reassembling any permutation of the
      pairs fails or succeeds alike, and when the recovered ids are
      distinct it recovers the same message. */
  lemma OrderIndependent(p: Primitives, s: seq<Payload>, t: seq<Payload>, keys: KeySet)
    requires multiset(s) == multiset(t)
    ensures Reassembled(p, s, keys).Success? <==> Reassembled(p, t, keys).Success?
    ensures Reassembled(p, s, keys).Success? && DistinctIds(DecryptAll(p, s, keys).value) ==>
              Reassembled(p, s, keys) == Reassembled(p, t, keys)
  {
    DecryptPermuted(p, s, t, keys);
    if Reassembled(p, s, keys).Success? && DistinctIds(DecryptAll(p, s, keys).value) {
      var ps, pt := DecryptAll(p, s, keys).value, DecryptAll(p, t, keys).value;
      SortKeepsDistinct(ps);
      SortedUnique(SortBySeqId(ps), SortBySeqId(pt));
    }
  }

  /** The parts the sender's list decrypts to, in index order. */
  lemma DecryptPrepared(p: Primitives, message: string, k: nat, keys: KeySet, draw: nat -> ChunkNonces)
    requires Sound(p) && SendFailure(message, k, keys) == None
    ensures DecryptAll(p, Prepared(p, message, k, keys, draw), keys)
            == Success(seq(k, i requires 0 <= i < k => Part(i, Chunks(message, k)[i])))
  {
    var prepared := Prepared(p, message, k, keys, draw);
    ChunksShape(message, k);
    var chunks := Chunks(message, k);
    var canonical := seq(k, i requires 0 <= i < k => Part(i, chunks[i]));
    forall i | 0 <= i < k
      ensures DecryptPayload(p, prepared[i], keys) == Success(canonical[i])
    {
      DecryptTag(p, i, chunks[i], keys, draw(i));
    }
    var r := DecryptAll(p, prepared, keys);
    assert r.Success?;
    assert r.value == canonical;
  }

  /** Round trip: whatever order the shuffle produced (or the images arrive
      in), reassembling the prepared pairs with the same keys gives back the
      message. */
  lemma RoundTrip(p: Primitives, message: string, k: nat, keys: KeySet, draw: nat -> ChunkNonces,
                  shuffled: seq<Payload>)
    requires Sound(p) && SendFailure(message, k, keys) == None
    requires multiset(shuffled) == multiset(Prepared(p, message, k, keys, draw))
    ensures Reassembled(p, shuffled, keys) == Success(message)
  {
    var prepared := Prepared(p, message, k, keys, draw);
    ChunksShape(message, k);
    var chunks := Chunks(message, k);
    var canonical := seq(k, i requires 0 <= i < k => Part(i, chunks[i]));
    DecryptPrepared(p, message, k, keys, draw);
    DecryptPermuted(p, shuffled, prepared, keys);
    var parts := DecryptAll(p, shuffled, keys).value;
    Canonical(chunks);
    SortedUnique(canonical, SortBySeqId(parts));
  }

  /** Numbering chunks in order gives an ordered list with distinct ids
      whose texts join to the chunks' concatenation. */
  lemma Canonical(chunks: seq<string>)
    ensures var canonical := seq(|chunks|, i requires 0 <= i < |chunks| => Part(i, chunks[i]));
      SortedBySeqId(canonical) && DistinctIds(canonical) && Join(canonical) == Concat(chunks)
  {
    var canonical := seq(|chunks|, i requires 0 <= i < |chunks| => Part(i, chunks[i]));
    assert MapSeq((part: Part) => part.text, canonical) == chunks;
  }

  /** Every pair of the sender's list, wherever the shuffle put it, decrypts. */
  lemma GenuineDecrypts(p: Primitives, message: string, k: nat, keys: KeySet,
                        draw: nat -> ChunkNonces, x: Payload)
    requires Sound(p) && SendFailure(message, k, keys) == None
    requires x in multiset(Prepared(p, message, k, keys, draw))
    ensures DecryptPayload(p, x, keys).Success?
  {
    var prepared := Prepared(p, message, k, keys, draw);
    var n :| 0 <= n < k && prepared[n] == x;
    ChunksShape(message, k);
    DecryptTag(p, n, Chunks(message, k)[n], keys, draw(n));
  }

  /** A pair whose id is genuine but whose content ASCON rejects fails with
      the id it carries. */
  lemma ForgedContentFails(p: Primitives, seqId: nat, text: string, keys: KeySet, nonces: ChunkNonces,
                           forged: bytes)
    requires ValidKeys(keys) && seqId < U32_LIMIT && DecryptAscon(p, forged, keys.outer).None?
    ensures DecryptPayload(p, Payload(Tag(p, seqId, text, keys, nonces).encSeqId, forged), keys)
            == Failure(AsconFailed(seqId))
  {
    AesRoundTrip(p, PackU32BE(seqId), keys.ctr, nonces.aes);
    UnpackPackU32(seqId);
  }

  /** Tamper detection: replacing the content of any one pair by bytes that
      ASCON rejects makes the whole reassembly fail, naming the index of the
      chunk that pair carried. */
  lemma TamperedContentDetected(p: Primitives, message: string, k: nat, keys: KeySet,
                                draw: nat -> ChunkNonces, shuffled: seq<Payload>, j: nat, forged: bytes)
    requires Sound(p) && SendFailure(message, k, keys) == None
    requires multiset(shuffled) == multiset(Prepared(p, message, k, keys, draw))
    requires j < |shuffled| && DecryptAscon(p, forged, keys.outer).None?
    ensures exists i :: 0 <= i < k && shuffled[j] == Prepared(p, message, k, keys, draw)[i]
              && Reassembled(p, shuffled[j := Payload(shuffled[j].encSeqId, forged)], keys)
                 == Failure(AsconFailed(i))
  {
    var prepared := Prepared(p, message, k, keys, draw);
    var tampered := shuffled[j := Payload(shuffled[j].encSeqId, forged)];
    assert shuffled[j] in multiset(prepared);
    var i :| 0 <= i < k && prepared[i] == shuffled[j];
    forall m | 0 <= m < j
      ensures DecryptPayload(p, tampered[..j][m], keys).Success?
    {
      assert tampered[..j][m] == shuffled[m];
      assert shuffled[m] in multiset(shuffled);
      GenuineDecrypts(p, message, k, keys, draw, shuffled[m]);
    }
    ChunksShape(message, k);
    ForgedContentFails(p, i, Chunks(message, k)[i], keys, draw(i), forged);
    FirstFailure(p, tampered, keys, j);
  }

  // ------------------------------------------------------------ scenarios

  /** Eleven characters in three parts: chunks of four, the last shorter. */
  lemma ElevenCharsInThreeParts()
    ensures ChunkSize(11, 3) == 4
    ensures Chunks("HELLO WORLD", 3) == ["HELL", "O WO", "RLD"]
  {
    var m := "HELLO WORLD";
    assert m[..4] == "HELL" && m[4..] == "O WORLD";
    assert m[4..][..4] == "O WO" && m[4..][4..] == "RLD";
    assert Slices(m, 4) == ["HELL", "O WO", "RLD"];
  }

  /** Three characters in five parts: three one-character chunks, then two
      empty ones that still get encrypted and sent. */
  lemma ThreeCharsInFiveParts()
    ensures ChunkSize(3, 5) == 1
    ensures Chunks("abc", 5) == ["a", "b", "c", "", ""]
  {
    var m := "abc";
    assert m[..1] == "a" && m[1..] == "bc";
    assert m[1..][..1] == "b" && m[1..][1..] == "c";
    assert Slices(m, 1) == ["a", "b", "c"];
  }
}
