/** The LSB codec: a payload is hidden as a 32-bit length prefix plus its bits,
    MSB first, in the least significant bits of successive channel values of
    the flattened RGB array. The image is the flat channel sequence; opening,
    decoding and saving it are left to the caller. */
module LsbEngine {
  import opened Wrappers
  import opened Bytes
  import opened Sequences

  // ------------------------------------------------------- binary strings

  predicate IsBinary(s: string)
  {
    forall i :: 0 <= i < |s| ==> s[i] == '0' || s[i] == '1'
  }

  function BitValue(c: char): nat
  {
    if c == '1' then 1 else 0
  }

  /** `int(s, 2)` of a digit string: most significant digit first. */
  function BinValue(s: string): nat
    decreases |s|
  {
    if s == [] then 0 else 2 * BinValue(s[..|s| - 1]) + BitValue(s[|s| - 1])
  }

  lemma {:induction false} BinValueBound(s: string)
    ensures BinValue(s) < Pow2(|s|)
    decreases |s|
  {
    if s != [] {
      BinValueBound(s[..|s| - 1]);
    }
  }

  /** Appending digits shifts the value left by their count. */
  lemma {:induction false} BinValueAppend(x: string, y: string)
    ensures BinValue(x + y) == BinValue(x) * Pow2(|y|) + BinValue(y)
    decreases |y|
  {
    if y == [] {
      assert x + y == x;
    } else {
      var init, c := y[..|y| - 1], y[|y| - 1];
      assert (x + y)[..|x + y| - 1] == x + init;
      BinValueAppend(x, init);
      calc {
        BinValue(x + y);
        2 * BinValue(x + init) + BitValue(c);
        2 * (BinValue(x) * Pow2(|init|) + BinValue(init)) + BitValue(c);
        { assert 2 * (BinValue(x) * Pow2(|init|)) == BinValue(x) * (2 * Pow2(|init|)); }
        BinValue(x) * Pow2(|y|) + BinValue(y);
      }
    }
  }

  function Zeros(n: nat): (r: string)
    ensures |r| == n
  {
    seq(n, _ => '0')
  }

  lemma {:induction false} BinValueOfZeros(n: nat)
    ensures BinValue(Zeros(n)) == 0
  {
    if n > 0 {
      assert Zeros(n)[..n - 1] == Zeros(n - 1);
      BinValueOfZeros(n - 1);
    }
  }

  function Digit(b: nat): char
  {
    if b == 0 then '0' else '1'
  }

  /** `bin(v)` without the `0b` prefix: the shortest digit string, "0" for 0. */
  function BinDigits(v: nat): (r: string)
    ensures |r| >= 1 && IsBinary(r)
    ensures BinValue(r) == v
    decreases v
  {
    if v < 2 then [Digit(v)]
    else
      var r := BinDigits(v / 2) + [Digit(v % 2)];
      assert r[..|r| - 1] == BinDigits(v / 2);
      r
  }

  /** A value below 2^w needs at most w digits. */
  lemma {:induction false} BinDigitsLength(v: nat, w: nat)
    requires 1 <= w && v < Pow2(w)
    ensures |BinDigits(v)| <= w
    decreases v
  {
    if v >= 2 {
      assert w >= 2;
      BinDigitsLength(v / 2, w - 1);
    }
  }

  /** `format(v, "0{w}b")`: the digits of `v`, left-padded with zeros to at
      least `w` characters; a value too wide for `w` keeps all its digits. */
  function PadBits(v: nat, w: nat): (r: string)
    ensures IsBinary(r) && |r| >= w
    ensures BinValue(r) == v
    ensures 1 <= w && v < Pow2(w) ==> |r| == w
    ensures v >= Pow2(w) ==> |r| > w
  {
    var digits := BinDigits(v);
    var pad := if |digits| < w then w - |digits| else 0;
    PaddedDigits(v, w, pad);
    Zeros(pad) + digits
  }

  lemma PaddedDigits(v: nat, w: nat, pad: nat)
    requires pad == if |BinDigits(v)| < w then w - |BinDigits(v)| else 0
    ensures BinValue(Zeros(pad) + BinDigits(v)) == v
    ensures 1 <= w && v < Pow2(w) ==> |Zeros(pad) + BinDigits(v)| == w
    ensures v >= Pow2(w) ==> |Zeros(pad) + BinDigits(v)| > w
  {
    var r := Zeros(pad) + BinDigits(v);
    BinValueAppend(Zeros(pad), BinDigits(v));
    BinValueOfZeros(pad);
    BinValueBound(r);
    if 1 <= w && v < Pow2(w) {
      BinDigitsLength(v, w);
    }
  }

  lemma ByteWidth(b: byte)
    ensures |PadBits(b as nat, 8)| == 8
  {
    Pow256IsPow2(1);
  }

  // ------------------------------------------------ msg_to_bin / bin_to_bytes

  /** `msg_to_bin` on `bytes`: every byte as `format(i, "08b")`, joined. */
  function MsgToBin(b: bytes): string
  {
    Concat(seq(|b|, i requires 0 <= i < |b| => PadBits(b[i] as nat, 8)))
  }

  /** Appending a byte appends its eight digits. */
  lemma MsgToBinSnoc(b: bytes)
    requires |b| >= 1
    ensures MsgToBin(b) == MsgToBin(b[..|b| - 1]) + PadBits(b[|b| - 1] as nat, 8)
  {
    var init, last := b[..|b| - 1], b[|b| - 1];
    var initPieces := seq(|init|, i requires 0 <= i < |init| => PadBits(init[i] as nat, 8));
    var lastBits := PadBits(last as nat, 8);
    assert seq(|b|, i requires 0 <= i < |b| => PadBits(b[i] as nat, 8)) == initPieces + [lastBits];
    ConcatAppend(initPieces, [lastBits]);
    assert Concat([lastBits]) == lastBits + Concat([]);
  }

  lemma MsgToBinEmpty()
    ensures MsgToBin([]) == ""
  {
    assert MsgToBin([]) == Concat([]);
  }

  /** Eight binary digits per byte, in order, each byte's digits spelling its
      value most significant bit first; the whole string denotes the bytes
      read as one big-endian number. */
  lemma MsgToBinShape(b: bytes)
    ensures |MsgToBin(b)| == 8 * |b| && IsBinary(MsgToBin(b))
    ensures forall i :: 0 <= i < |b| ==> MsgToBin(b)[8 * i..8 * i + 8] == PadBits(b[i] as nat, 8)
    ensures BinValue(MsgToBin(b)) == BytesValue(b)
  {
    MsgToBinLength(b);
    MsgToBinAt(b);
    MsgToBinValue(b);
  }

  lemma {:induction false} MsgToBinLength(b: bytes)
    ensures |MsgToBin(b)| == 8 * |b| && IsBinary(MsgToBin(b))
    decreases |b|
  {
    if b == [] {
      MsgToBinEmpty();
    } else {
      MsgToBinLength(b[..|b| - 1]);
      MsgToBinSnoc(b);
      ByteWidth(b[|b| - 1]);
      BinaryAppend(MsgToBin(b[..|b| - 1]), PadBits(b[|b| - 1] as nat, 8));
    }
  }

  lemma BinaryAppend(x: string, y: string)
    requires IsBinary(x) && IsBinary(y)
    ensures IsBinary(x + y)
  {
    assert forall i :: 0 <= i < |x + y| ==> (x + y)[i] == if i < |x| then x[i] else y[i - |x|];
  }

  lemma {:induction false} MsgToBinAt(b: bytes)
    ensures forall i :: 0 <= i < |b| ==> |MsgToBin(b)| == 8 * |b| && MsgToBin(b)[8 * i..8 * i + 8] == PadBits(b[i] as nat, 8)
    decreases |b|
  {
    if b != [] {
      var init := b[..|b| - 1];
      MsgToBinAt(init);
      MsgToBinLength(init);
      MsgToBinSnoc(b);
      ByteWidth(b[|b| - 1]);
      MsgToBinPieces(b, MsgToBin(init), PadBits(b[|b| - 1] as nat, 8));
    }
  }

  lemma {:induction false} MsgToBinValue(b: bytes)
    ensures BinValue(MsgToBin(b)) == BytesValue(b)
    decreases |b|
  {
    if b == [] {
      MsgToBinEmpty();
    } else {
      var init := b[..|b| - 1];
      MsgToBinValue(init);
      MsgToBinSnoc(b);
      ByteWidth(b[|b| - 1]);
      MsgToBinValueStep(b, MsgToBin(init), PadBits(b[|b| - 1] as nat, 8));
    }
  }

  lemma MsgToBinValueStep(b: bytes, front: string, lastBits: string)
    requires |b| >= 1 && MsgToBin(b) == front + lastBits && lastBits == PadBits(b[|b| - 1] as nat, 8)
    requires |lastBits| == 8 && BinValue(front) == BytesValue(b[..|b| - 1])
    ensures BinValue(MsgToBin(b)) == BytesValue(b)
  {
    Pow256IsPow2(1);
    assert Pow2(8) == 256 by {
      assert Pow256(1) == 256 * Pow256(0);
    }
    BinValueAppend(front, lastBits);
    var hi, lo := BinValue(front), BinValue(lastBits);
    assert lo == b[|b| - 1] as nat;
    assert BinValue(front + lastBits) == hi * 256 + lo;
    assert BytesValue(b) == 256 * BytesValue(b[..|b| - 1]) + b[|b| - 1] as nat;
  }

  lemma MsgToBinPieces(b: bytes, front: string, lastBits: string)
    requires |b| >= 1 && |front| == 8 * (|b| - 1) && |lastBits| == 8
    requires MsgToBin(b) == front + lastBits && lastBits == PadBits(b[|b| - 1] as nat, 8)
    requires forall i :: 0 <= i < |b| - 1 ==> front[8 * i..8 * i + 8] == PadBits(b[i] as nat, 8)
    ensures forall i :: 0 <= i < |b| ==> MsgToBin(b)[8 * i..8 * i + 8] == PadBits(b[i] as nat, 8)
  {
    forall i | 0 <= i < |b|
      ensures MsgToBin(b)[8 * i..8 * i + 8] == PadBits(b[i] as nat, 8)
    {
      if i < |b| - 1 {
        assert MsgToBin(b)[8 * i..8 * i + 8] == front[8 * i..8 * i + 8];
      } else {
        assert MsgToBin(b)[8 * i..8 * i + 8] == lastBits;
      }
    }
  }

  lemma BinValueFits(s: string)
    ensures BinValue(s) < Pow256((|s| + 7) / 8)
  {
    var n := (|s| + 7) / 8;
    BinValueBound(s);
    Pow2Monotone(|s|, 8 * n);
    Pow256IsPow2(n);
  }

  /** `bin_to_bytes`: `int(s, 2).to_bytes(ceil(|s| / 8), 'big')`. The empty
      string is rejected (`int('', 2)` raises); leading zero bytes are kept
      because the width comes from the digit count, not the value. */
  function BinToBytes(s: string): (r: Option<bytes>)
    ensures r.Some? <==> |s| >= 1 && IsBinary(s)
    ensures r.Some? ==> |r.value| == (|s| + 7) / 8 && BytesValue(r.value) == BinValue(s)
  {
    if |s| == 0 || !IsBinary(s) then None
    else
      BinValueFits(s);
      BytesValueOfToBytesBE(BinValue(s), (|s| + 7) / 8);
      Some(ToBytesBE(BinValue(s), (|s| + 7) / 8))
  }

  /** `bin_to_bytes(msg_to_bin(b)) == b` for every non-empty `b`. */
  lemma BinToBytesOfMsgToBin(b: bytes)
    requires |b| >= 1
    ensures BinToBytes(MsgToBin(b)) == Some(b)
  {
    MsgToBinShape(b);
    assert (8 * |b| + 7) / 8 == |b|;
    ToBytesBEOfBytesValue(b);
  }

  // ----------------------------------------------------------- embedding

  /** `str(v & 1)`: the least significant bit of a channel, as a digit. */
  function LsbChar(v: byte): char
  {
    if v % 2 == 0 then '0' else '1'
  }

  function LsbBits(s: seq<byte>): (r: string)
    ensures |r| == |s| && IsBinary(r)
  {
    seq(|s|, i requires 0 <= i < |s| => LsbChar(s[i]))
  }

  /** One write of the embed loop: `val & 254` for a '0', `val | 1` otherwise.
      Only bit 0 changes, and it becomes the stream digit. */
  function WriteBit(v: byte, bit: char): (r: byte)
    ensures r as int / 2 == v as int / 2
    ensures bit == '0' || bit == '1' ==> LsbChar(r) == bit
  {
    if bit == '0' then v - v % 2 else v - v % 2 + 1
  }

  /** The bit stream `embed_data` hides: the length as `format(n, '032b')`,
      then the payload bits. */
  function Stream(secret: bytes): string
  {
    PadBits(|secret|, 32) + MsgToBin(secret)
  }

  /** The capacity check: one stream bit per pixel, so a third of the
      channels, although every channel gets at most one bit. */
  predicate Fits(pixels: seq<byte>, secret: bytes)
  {
    |Stream(secret)| <= |pixels| / 3
  }

  /** `stego` is `cover` with the first `|bits|` channels carrying `bits` in
      their low bit and every later channel untouched. */
  predicate Carries(cover: seq<byte>, bits: string, stego: seq<byte>)
  {
    && |stego| == |cover| && |bits| <= |cover|
    && (forall i :: 0 <= i < |bits| ==> stego[i] == WriteBit(cover[i], bits[i]))
    && (forall i :: |bits| <= i < |cover| ==> stego[i] == cover[i])
  }

  /** `embed_data` on a flat channel sequence: `None` when the image is too
      small (it returns False and saves nothing), otherwise the channels of
      the image it saves. */
  method EmbedData(pixels: seq<byte>, secret: bytes) returns (r: Option<seq<byte>>)
    ensures r.None? <==> !Fits(pixels, secret)
    ensures r.Some? ==> Carries(pixels, Stream(secret), r.value)
  {
    var binLen := PadBits(|secret|, 32);
    var binData := binLen + MsgToBin(secret);
    assert binData == Stream(secret);
    var totalPixels := |pixels| / 3;
    var reqPixels := |binData|;
    if reqPixels > totalPixels {
      return None;
    }
    var flat := new byte[|pixels|](i requires 0 <= i < |pixels| => pixels[i]);
    assert flat[..] == pixels;
    WriteStream(flat, binData);
    return Some(flat[..]);
  }

  /** The loop of `embed_data`: channel `i` of the flattened array takes
      stream bit `i` in its low bit, in place. */
  method WriteStream(flat: array<byte>, bits: string)
    requires |bits| <= flat.Length
    modifies flat
    ensures Carries(old(flat[..]), bits, flat[..])
  {
    ghost var cover := flat[..];
    for i := 0 to |bits|
      invariant forall j :: 0 <= j < i ==> flat[j] == WriteBit(cover[j], bits[j])
      invariant forall j :: i <= j < flat.Length ==> flat[j] == cover[j]
    {
      var val := flat[i];
      var bit := if bits[i] == '0' then 0 else 1;
      if bit == 0 {
        flat[i] := val - val % 2;       // val & 254
      } else {
        flat[i] := val - val % 2 + 1;   // val | 1
      }
    }
  }

  /** The capacity is in pixels: a payload fits exactly when three channels
      are available per stream bit, i.e. `3 * (32 + 8 * |secret|)` of them. */
  lemma FitsPixelCount(pixels: seq<byte>, secret: bytes)
    requires |secret| < U32_LIMIT
    ensures Fits(pixels, secret) <==> 3 * (32 + 8 * |secret|) <= |pixels|
  {
    Pow2Of32();
    MsgToBinShape(secret);
  }

  /** Embedding touches only the low bit of each channel, and reading the
      low bits back gives the stream. */
  lemma CarriesReadsBack(cover: seq<byte>, bits: string, stego: seq<byte>)
    requires IsBinary(bits) && Carries(cover, bits, stego)
    ensures forall i :: 0 <= i < |cover| ==> stego[i] as int / 2 == cover[i] as int / 2
    ensures LsbBits(stego[..|bits|]) == bits
  {
  }

  // ---------------------------------------------------------- extraction

  datatype ExtractError =
    | ShortPrefix                  // fewer than 32 channels: `pixels[i]` raises
    | ShortPayload(dataLen: nat)   // the declared payload runs past the end
    | EmptyPayload                 // a declared length of 0: `int('', 2)` raises

  /** What `extract_data` returns or raises for a flat channel sequence. */
  function Extracted(pixels: seq<byte>): (r: Result<bytes, ExtractError>)
    ensures r.Success? ==> |pixels| >= 32 && |r.value| == BinValue(LsbBits(pixels[..32])) >= 1
    ensures r == Failure(EmptyPayload) <==> |pixels| >= 32 && BinValue(LsbBits(pixels[..32])) == 0
    ensures r.Success? ==> 32 + 8 * |r.value| <= |pixels| && BytesValue(r.value) == BinValue(LsbBits(pixels[32..32 + 8 * |r.value|]))
    ensures r.Failure? && r.error.ShortPayload? <==> |pixels| >= 32 && |pixels| < 32 + 8 * BinValue(LsbBits(pixels[..32]))
  {
    if |pixels| < 32 then Failure(ShortPrefix)
    else
      var dataLen := BinValue(LsbBits(pixels[..32]));
      if |pixels| < 32 + 8 * dataLen then Failure(ShortPayload(dataLen))
      else
        match BinToBytes(LsbBits(pixels[32..32 + 8 * dataLen]))
        case None => Failure(EmptyPayload)
        case Some(data) => Success(data)
  }

  /** `extract_data`: read 32 low bits, then `8 * L` more, then convert. */
  method ExtractData(pixels: seq<byte>) returns (r: Result<bytes, ExtractError>)
    ensures r == Extracted(pixels)
  {
    var lenBits := "";
    for i := 0 to 32
      invariant i <= |pixels| && lenBits == LsbBits(pixels[..i])
    {
      if i >= |pixels| {
        return Failure(ShortPrefix);
      }
      lenBits := lenBits + [LsbChar(pixels[i])];
      assert LsbBits(pixels[..i + 1]) == LsbBits(pixels[..i]) + [LsbChar(pixels[i])];
    }
    var dataLen := BinValue(lenBits);
    var totalBits := dataLen * 8;
    var dataBits := "";
    for i := 32 to 32 + totalBits
      invariant i <= |pixels| && dataBits == LsbBits(pixels[32..i])
    {
      if i >= |pixels| {
        return Failure(ShortPayload(dataLen));
      }
      dataBits := dataBits + [LsbChar(pixels[i])];
      assert LsbBits(pixels[32..i + 1]) == LsbBits(pixels[32..i]) + [LsbChar(pixels[i])];
    }
    match BinToBytes(dataBits)
    case None => r := Failure(EmptyPayload);
    case Some(data) => r := Success(data);
  }

  /** Round trip: from the channels of a successful embed of a non-empty
      payload, extraction recovers the payload. */
  lemma ExtractEmbedded(cover: seq<byte>, secret: bytes, stego: seq<byte>)
    requires 1 <= |secret| < U32_LIMIT
    requires Carries(cover, Stream(secret), stego)
    ensures Extracted(stego) == Success(secret)
  {
    var prefix, body := PadBits(|secret|, 32), MsgToBin(secret);
    Pow2Of32();
    MsgToBinShape(secret);
    CarriesReadsBack(cover, prefix + body, stego);
    LsbBitsSplit(stego, prefix, body);
    BinToBytesOfMsgToBin(secret);
    ExtractedOf(stego, |secret|, body);
  }

  lemma LsbBitsSplit(s: seq<byte>, x: string, y: string)
    requires |x| + |y| <= |s| && LsbBits(s[..|x| + |y|]) == x + y
    ensures LsbBits(s[..|x|]) == x && LsbBits(s[|x|..|x| + |y|]) == y
  {
    assert s[..|x|] == s[..|x| + |y|][..|x|];
    assert s[|x|..|x| + |y|] == s[..|x| + |y|][|x|..];
    forall i | 0 <= i < |x|
      ensures LsbBits(s[..|x|])[i] == x[i]
    {
      assert LsbBits(s[..|x| + |y|])[i] == (x + y)[i];
    }
    forall i | 0 <= i < |y|
      ensures LsbBits(s[|x|..|x| + |y|])[i] == y[i]
    {
      assert LsbBits(s[..|x| + |y|])[|x| + i] == (x + y)[|x| + i];
    }
  }

  /** Extraction from channels whose first 32 low bits declare `n` and whose
      next `8 * n` low bits are `body`. */
  lemma ExtractedOf(s: seq<byte>, n: nat, body: string)
    requires 32 + 8 * n <= |s| && |body| == 8 * n
    requires BinValue(LsbBits(s[..32])) == n && LsbBits(s[32..32 + 8 * n]) == body
    ensures Extracted(s) == match BinToBytes(body) case None => Failure(EmptyPayload) case Some(d) => Success(d)
  {
  }

  /** Embedding an empty payload succeeds but cannot be read back: the
      prefix of 32 zeros makes extraction fail. */
  lemma EmptyPayloadNotRecoverable(cover: seq<byte>, stego: seq<byte>)
    requires Carries(cover, Stream([]), stego)
    ensures Extracted(stego) == Failure(EmptyPayload)
  {
    Pow2Of32();
    MsgToBinEmpty();
    var bits := Stream([]);
    assert bits == PadBits(0, 32);
    CarriesReadsBack(cover, bits, stego);
    assert stego[..32] == stego[..|bits|];
    assert BinValue(LsbBits(stego[..32])) == 0;
    assert LsbBits(stego[32..32]) == "";
  }
}
